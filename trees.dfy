/**
 * The free-form trees of a page: the `Custom` and `Model` attribute trees
 * (ExpandoObject in the source) and the data mapping a model is resolved
 * against. A node is an insertion-ordered sequence of key/value entries.
 */
module Trees {

  import opened Wrappers

  datatype Value = Null | Str(s: string) | Node(entries: seq<Entry>)

  datatype Entry = Entry(key: string, val: Value)

  /** Replacing the first element of the second half of `a + b` by `x`. */
  lemma SpliceAt<T>(a: seq<T>, b: seq<T>, x: T)
    requires b != []
    ensures (a + b)[|a| := x] == a + [x] + b[1..]
    ensures (a + b)[|a| := x][..|a| + 1] == a + [x]
    ensures a + ([x] + b[1..]) == a + [x] + b[1..]
  {
  }

  /** Some entry of `es` has key `k`. */
  predicate HasKey(es: seq<Entry>, k: string) {
    exists i :: 0 <= i < |es| && es[i].key == k
  }

  /** The value stored under `k`: the dictionary indexer of a node (the first entry with that key). */
  function Get(es: seq<Entry>, k: string): (r: Option<Value>)
    ensures r.Some? <==> HasKey(es, k)
    ensures r.Some? ==> exists i :: 0 <= i < |es| && es[i].key == k && es[i].val == r.value
  {
    if es == [] then None
    else if es[0].key == k then Some(es[0].val)
    else
      var r := Get(es[1..], k);
      assert forall i :: 0 <= i < |es| - 1 ==> es[1..][i] == es[i + 1];
      if r.Some? then assert HasKey(es[1..], k); r else r
  }

  /** No two sibling entries share a key (what ExpandoObject guarantees for each node). */
  predicate UniqueKeys(es: seq<Entry>) {
    forall i, j :: 0 <= i < j < |es| ==> es[i].key != es[j].key
  }

  /** Every node of the tree has unique keys. */
  predicate WellFormed(v: Value)
    decreases v
  {
    match v
    case Node(es) => UniqueKeys(es) && forall i :: 0 <= i < |es| ==> WellFormed(es[i].val)
    case _ => true
  }

  /** A fresh chain of single-key nodes along `path`, ending in the scalar `value`. */
  function Chain(path: seq<string>, value: string): Value {
    if path == [] then Str(value) else Node([Entry(path[0], Chain(path[1..], value))])
  }

  /**
   * Adding the branch `path` (at least one segment) with scalar `value` to a
   * node: one new entry `path[0]`, bound to a fresh chain; a key already
   * present at this level is rejected, nothing is ever merged.
   */
  function Insert(node: seq<Entry>, path: seq<string>, value: string): Result<seq<Entry>, Error>
    requires |path| >= 1
  {
    if HasKey(node, path[0]) then Failure(DuplicateKey(path[0]))
    else Success(node + [Entry(path[0], Chain(path[1..], value))])
  }

  /**
   * Walking `path` from `v`: each segment indexes the current node; a value
   * that is not a node ends the walk with null; a key missing from a node is
   * a lookup failure.
   */
  function Walk(path: seq<string>, v: Value): Result<Value, Error> {
    if path == [] then Success(v)
    else
      match v
      case Node(es) =>
        (match Get(es, path[0])
         case Some(child) => Walk(path[1..], child)
         case None => Failure(MissingDataKey(path[0])))
      case _ => Success(Null)
  }

  /** A chain is well formed, and walking its own path gives back its scalar. */
  lemma {:induction false} ChainWalk(path: seq<string>, value: string)
    ensures WellFormed(Chain(path, value))
    ensures Walk(path, Chain(path, value)) == Success(Str(value))
  {
    if path != [] {
      ChainWalk(path[1..], value);
      assert Get([Entry(path[0], Chain(path[1..], value))], path[0]) == Some(Chain(path[1..], value));
    }
  }

  /**
   * Insert fails exactly on a key already present; otherwise it appends one
   * entry, the earlier entries are untouched, and the key set grows by `path[0]`.
   */
  lemma {:induction false} InsertAddsOneEntry(node: seq<Entry>, path: seq<string>, value: string)
    requires |path| >= 1
    ensures Insert(node, path, value).Failure? <==> HasKey(node, path[0])
    ensures Insert(node, path, value).Failure? ==> Insert(node, path, value).error == DuplicateKey(path[0])
    ensures Insert(node, path, value).Success? ==>
              var r := Insert(node, path, value).value;
              && |r| == |node| + 1 && r[..|node|] == node
              && r[|node|] == Entry(path[0], Chain(path[1..], value))
              && (forall k :: HasKey(r, k) <==> HasKey(node, k) || k == path[0])
              && (forall k :: k != path[0] ==> Get(r, k) == Get(node, k))
  {
    if !HasKey(node, path[0]) {
      var r := node + [Entry(path[0], Chain(path[1..], value))];
      forall k ensures HasKey(r, k) <==> HasKey(node, k) || k == path[0] {
        if HasKey(node, k) {
          var i :| 0 <= i < |node| && node[i].key == k;
          assert r[i].key == k;
        }
        assert r[|node|].key == path[0];
      }
      forall k | k != path[0] ensures Get(r, k) == Get(node, k) {
        GetAppendOther(node, Entry(path[0], Chain(path[1..], value)), k);
      }
    }
  }

  lemma {:induction false} GetAppendOther(es: seq<Entry>, e: Entry, k: string)
    requires e.key != k
    ensures Get(es + [e], k) == Get(es, k)
  {
    if es != [] {
      assert (es + [e])[1..] == es[1..] + [e];
      GetAppendOther(es[1..], e, k);
    }
  }

  /** Insertion keeps every node's keys unique. */
  lemma {:induction false} InsertWellFormed(node: seq<Entry>, path: seq<string>, value: string)
    requires |path| >= 1 && WellFormed(Node(node))
    requires Insert(node, path, value).Success?
    ensures WellFormed(Node(Insert(node, path, value).value))
  {
    var r := Insert(node, path, value).value;
    ChainWalk(path[1..], value);
    assert r[|node|].key == path[0];
    forall i, j | 0 <= i < j < |r| ensures r[i].key != r[j].key {
      if j == |node| { assert r[i] == node[i]; }
    }
  }

  /** What Insert stored can be read back: walking `path` in the new node gives the scalar. */
  lemma {:induction false} InsertThenWalk(node: seq<Entry>, path: seq<string>, value: string)
    requires |path| >= 1 && Insert(node, path, value).Success?
    ensures Walk(path, Node(Insert(node, path, value).value)) == Success(Str(value))
  {
    var r := Insert(node, path, value).value;
    GetAppendNew(node, Entry(path[0], Chain(path[1..], value)));
    ChainWalk(path[1..], value);
  }

  lemma {:induction false} GetAppendNew(es: seq<Entry>, e: Entry)
    requires !HasKey(es, e.key)
    ensures Get(es + [e], e.key) == Some(e.val)
  {
    if es != [] {
      assert (es + [e])[1..] == es[1..] + [e];
      assert es[0].key != e.key;
      forall i | 0 <= i < |es| - 1 ensures es[1..][i].key != e.key {
        assert es[1..][i] == es[i + 1];
      }
      GetAppendNew(es[1..], e);
    }
  }

  /**
   * A walk along `a + b` is the walk along `a` followed by the walk along `b`
   * from where it ended (a walk cut short by a scalar yields null either way).
   */
  lemma {:induction false} WalkAppend(a: seq<string>, b: seq<string>, v: Value)
    ensures Walk(a + b, v) == match Walk(a, v) case Failure(e) => Failure(e) case Success(w) => Walk(b, w)
  {
    if a != [] {
      assert (a + b)[0] == a[0] && (a + b)[1..] == a[1..] + b;
      match v {
        case Node(es) =>
          match Get(es, a[0]) {
            case Some(child) => WalkAppend(a[1..], b, child);
            case None =>
          }
        case _ =>
      }
    } else {
      assert a + b == b;
    }
  }
}
