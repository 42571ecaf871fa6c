/**
 * Resolving a page's `Model` tree against a data mapping: every scalar leaf
 * of the model is read as a dotted path into the data and replaced by what
 * the path leads to.
 */
module Resolver {

  import opened Wrappers
  import opened Text
  import opened Trees

  /** The optional root segment a lookup path may start with. */
  const DataRoot: string := "Data"

  /**
   * The value a dotted path leads to in `data`: the path is split on '.'
   * keeping empty segments, a leading `Data` segment is dropped (`Data` alone
   * gives null), and the rest is walked from the root of `data`.
   */
  function LookupPath(path: string, data: seq<Entry>): Result<Value, Error> {
    var names := Split(path, {'.'});
    if names[0] == DataRoot then
      if |names| == 1 then Success(Null) else Walk(names[1..], Node(data))
    else Walk(names, Node(data))
  }

  /** `Data` on its own leads to null. */
  lemma {:induction false} LookupDataAlone(data: seq<Entry>)
    ensures LookupPath(DataRoot, data) == Success(Null)
  {
    assert Split(DataRoot, {'.'}) == [DataRoot] by {
      assert FreeOf(DataRoot, {'.'});
      SplitHead(DataRoot, {'.'});
      SplitTail(DataRoot, {'.'});
      assert DataRoot[..|DataRoot|] == DataRoot;
    }
  }

  /**
   * A leading `Data.` is dropped: the lookup walks the segments that follow
   * it, and when the path does not itself start with a `Data` segment,
   * prefixing it with `Data.` changes nothing.
   */
  lemma {:induction false} LookupDropsDataRoot(p: string, data: seq<Entry>)
    ensures LookupPath(DataRoot + "." + p, data) == Walk(Split(p, {'.'}), Node(data))
    ensures Split(p, {'.'})[0] != DataRoot ==> LookupPath(p, data) == LookupPath(DataRoot + "." + p, data)
  {
    assert FreeOf(DataRoot, {'.'});
    SplitAfterSegment(DataRoot, '.', p);
    assert ([DataRoot] + Split(p, {'.'}))[1..] == Split(p, {'.'});
  }

  /** Walking on from a scalar, as long as segments remain, yields null rather than an error. */
  lemma {:induction false} WalkThroughScalar(a: seq<string>, b: seq<string>, data: seq<Entry>, x: string)
    requires Walk(a, Node(data)) == Success(Str(x)) && b != []
    ensures Walk(a + b, Node(data)) == Success(Null)
  {
    WalkAppend(a, b, Node(data));
  }

  /** A segment missing from the node reached so far is a lookup failure naming that segment. */
  lemma {:induction false} WalkMissingKey(a: seq<string>, k: string, b: seq<string>, data: seq<Entry>, es: seq<Entry>)
    requires Walk(a, Node(data)) == Success(Node(es)) && !HasKey(es, k)
    ensures Walk(a + [k] + b, Node(data)) == Failure(MissingDataKey(k))
  {
    WalkAppend(a, [k] + b, Node(data));
    assert a + [k] + b == a + ([k] + b);
    assert ([k] + b)[0] == k;
  }

  /**
   * The resolution of one model value: a nested node is resolved entry by
   * entry, a scalar leaf is replaced by what its path leads to, and a null
   * leaf cannot be resolved. On a failure the value keeps whatever was
   * resolved inside it before the failure.
   */
  function ResolveValue(v: Value, data: seq<Entry>): (Value, Option<Error>)
    decreases v
  {
    match v
    case Node(cs) =>
      var (cs', e) := ResolveEntries(cs, data);
      (Node(cs'), e)
    case Str(p) =>
      (match LookupPath(p, data)
       case Success(x) => (x, None)
       case Failure(e) => (v, Some(e)))
    case Null => (Null, Some(NullPath))
  }

  /**
   * One resolution pass over the entries of a node, in order; the first
   * failure stops the pass. What was replaced before the failure stays
   * replaced, as the source overwrites the entries as it goes.
   */
  function ResolveEntries(es: seq<Entry>, data: seq<Entry>): (r: (seq<Entry>, Option<Error>))
    ensures |r.0| == |es|
    decreases es
  {
    if es == [] then ([], None)
    else
      var (v, e) := ResolveValue(es[0].val, data);
      if e.Some? then ([Entry(es[0].key, v)] + es[1..], e)
      else
        var (rest, e') := ResolveEntries(es[1..], data);
        ([Entry(es[0].key, v)] + rest, e')
  }

  /** A pass keeps every key of the node, in order, whether or not it fails. */
  lemma {:induction false} ResolveKeepsKeys(es: seq<Entry>, data: seq<Entry>)
    ensures forall i :: 0 <= i < |es| ==> ResolveEntries(es, data).0[i].key == es[i].key
    decreases es
  {
    if es != [] {
      ResolveKeepsKeys(es[1..], data);
      var r := ResolveEntries(es, data).0;
      forall i | 1 <= i < |es| ensures r[i].key == es[i].key {
        assert es[i] == es[1..][i - 1];
      }
    }
  }

  /** A pass result with the entries `done` put in front. */
  function Prepend(done: seq<Entry>, r: (seq<Entry>, Option<Error>)): (seq<Entry>, Option<Error>) {
    (done + r.0, r.1)
  }

  /**
   * One step of a pass that overwrites the entries of `model` in place: with
   * the entries before `i` already replaced in `r`, replacing entry `i` by its
   * resolution either ends the pass (on a failure) or leaves the entries up
   * to `i` replaced.
   */
  lemma ResolveStep(model: seq<Entry>, r: seq<Entry>, i: nat, data: seq<Entry>, v: Value, e: Option<Error>)
    requires i < |model| && |r| == |model| && r == r[..i] + model[i..]
    requires ResolveEntries(model, data) == Prepend(r[..i], ResolveEntries(model[i..], data))
    requires (v, e) == ResolveValue(model[i].val, data)
    ensures var r' := r[i := Entry(model[i].key, v)];
            && |r'| == |model| && r' == r'[..i + 1] + model[i + 1..]
            && (e.Some? ==> ResolveEntries(model, data) == (r', e))
            && (e.None? ==> ResolveEntries(model, data) == Prepend(r'[..i + 1], ResolveEntries(model[i + 1..], data)))
  {
    var x := Entry(model[i].key, v);
    var rest := model[i..];
    assert rest[0] == model[i] && rest[1..] == model[i + 1..];
    ResolveEntriesHead(rest, data);
    SpliceAt(r[..i], model[i..], x);
    assert r[i := x] == r[..i] + [x] + model[i + 1..];
    if e.None? {
      var tail := ResolveEntries(model[i + 1..], data).0;
      assert r[..i] + ([x] + tail) == (r[..i] + [x]) + tail;
    }
  }

  /** A pass that went through every entry without failing replaced them all. */
  lemma ResolveDone(model: seq<Entry>, r: seq<Entry>, data: seq<Entry>)
    requires |r| == |model|
    requires ResolveEntries(model, data) == Prepend(r[..|model|], ResolveEntries(model[|model|..], data))
    ensures ResolveEntries(model, data) == (r, None)
  {
    assert model[|model|..] == [];
    assert r[..|model|] + [] == r;
  }

  /** The pass resolves the first entry, and goes on with the others unless that failed. */
  lemma ResolveEntriesHead(es: seq<Entry>, data: seq<Entry>)
    requires es != []
    ensures ResolveEntries(es, data) ==
              var (v, e) := ResolveValue(es[0].val, data);
              if e.Some? then ([Entry(es[0].key, v)] + es[1..], e)
              else Prepend([Entry(es[0].key, v)], ResolveEntries(es[1..], data))
  {
  }

  /**
   * `res` is `orig` resolved against `data`: the same nodes with the same
   * keys in the same order, every scalar leaf replaced by its lookup. A null
   * leaf cannot be resolved.
   */
  ghost predicate ResolvedFrom(orig: Value, res: Value, data: seq<Entry>)
    decreases orig
  {
    match orig
    case Null => false
    case Str(p) => LookupPath(p, data) == Success(res)
    case Node(es) =>
      && res.Node? && |res.entries| == |es|
      && forall i :: 0 <= i < |es| ==>
           res.entries[i].key == es[i].key && ResolvedFrom(es[i].val, res.entries[i].val, data)
  }

  /** A pass that reports no failure has resolved every leaf. */
  lemma {:induction false} ResolveSound(es: seq<Entry>, data: seq<Entry>)
    requires ResolveEntries(es, data).1.None?
    ensures ResolvedFrom(Node(es), Node(ResolveEntries(es, data).0), data)
    decreases es
  {
    if es != [] {
      var r := ResolveEntries(es, data).0;
      match es[0].val {
        case Node(cs) => ResolveSound(cs, data);
        case Str(p) =>
        case Null =>
      }
      ResolveSound(es[1..], data);
      forall i | 0 <= i < |es| ensures ResolvedFrom(es[i].val, r[i].val, data) {
        if i > 0 {
          assert es[i] == es[1..][i - 1];
          assert r[i] == ResolveEntries(es[1..], data).0[i - 1];
        }
      }
    }
  }

  /** Conversely, a tree resolved from the entries is exactly what the pass produces, without failure. */
  lemma {:induction false} ResolveComplete(es: seq<Entry>, r: seq<Entry>, data: seq<Entry>)
    requires ResolvedFrom(Node(es), Node(r), data)
    ensures ResolveEntries(es, data) == (r, None)
    decreases es
  {
    if es != [] {
      assert ResolvedFrom(es[0].val, r[0].val, data);
      match es[0].val {
        case Node(cs) =>
          ResolveComplete(cs, r[0].val.entries, data);
        case Str(p) =>
        case Null =>
      }
      assert ResolvedFrom(Node(es[1..]), Node(r[1..]), data) by {
        forall i | 0 <= i < |es| - 1
          ensures r[1..][i].key == es[1..][i].key && ResolvedFrom(es[1..][i].val, r[1..][i].val, data)
        {
          assert es[1..][i] == es[i + 1] && r[1..][i] == r[i + 1];
        }
      }
      ResolveComplete(es[1..], r[1..], data);
      assert r == [Entry(es[0].key, r[0].val)] + r[1..];
    }
  }

  /** Walking a well-formed tree ends in a well-formed value. */
  lemma {:induction false} WalkWellFormed(path: seq<string>, v: Value)
    requires WellFormed(v) && Walk(path, v).Success?
    ensures WellFormed(Walk(path, v).value)
    decreases path
  {
    if path != [] && v.Node? {
      var child := Get(v.entries, path[0]);
      if child.Some? {
        var i :| 0 <= i < |v.entries| && v.entries[i].key == path[0] && v.entries[i].val == child.value;
        WalkWellFormed(path[1..], child.value);
      }
    }
  }

  /** A lookup in well-formed data yields a well-formed value. */
  lemma {:induction false} LookupWellFormed(path: string, data: seq<Entry>)
    requires WellFormed(Node(data)) && LookupPath(path, data).Success?
    ensures WellFormed(LookupPath(path, data).value)
  {
    var names := Split(path, {'.'});
    if names[0] == DataRoot {
      if |names| > 1 { WalkWellFormed(names[1..], Node(data)); }
    } else {
      WalkWellFormed(names, Node(data));
    }
  }

  /** Resolving a well-formed model against well-formed data keeps every node's keys unique, even when it stops early. */
  lemma {:induction false} ResolveWellFormed(es: seq<Entry>, data: seq<Entry>)
    requires WellFormed(Node(es)) && WellFormed(Node(data))
    ensures WellFormed(Node(ResolveEntries(es, data).0))
    decreases es
  {
    ResolveKeepsKeys(es, data);
    if es != [] {
      var r := ResolveEntries(es, data).0;
      assert WellFormed(es[0].val);
      match es[0].val {
        case Node(cs) => ResolveWellFormed(cs, data);
        case Str(p) => if LookupPath(p, data).Success? { LookupWellFormed(p, data); }
        case Null =>
      }
      assert WellFormed(Node(es[1..])) by {
        forall i | 0 <= i < |es| - 1 ensures WellFormed(es[1..][i].val) { assert es[1..][i] == es[i + 1]; }
        forall i, j | 0 <= i < j < |es| - 1 ensures es[1..][i].key != es[1..][j].key {
          assert es[1..][i] == es[i + 1] && es[1..][j] == es[j + 1];
        }
      }
      ResolveWellFormed(es[1..], data);
      forall i | 1 <= i < |es| ensures WellFormed(r[i].val) {
        if ResolveEntries(es[1..], data).0[i - 1] != r[i] {
          assert r[i] == es[1..][i - 1];
        }
      }
    }
  }
}
