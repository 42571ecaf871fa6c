/**
 * The .NET string operations the page parser relies on, written out:
 * String.Trim, String.Split (on characters and on an array of strings, with
 * and without RemoveEmptyEntries), String.Join and the ordinal
 * case-insensitive comparison.
 */
module Text {

  import opened Wrappers

  /** char.IsWhiteSpace: U+0009..U+000D, U+0085 and the Unicode space, line and paragraph separators. */
  predicate IsWhiteSpace(c: char) {
    c == ' ' || ('\t' <= c <= '\r') || c == '\U{0085}' || c == '\U{00A0}' || c == '\U{1680}'
    || ('\U{2000}' <= c <= '\U{200A}') || c == '\U{2028}' || c == '\U{2029}' || c == '\U{202F}'
    || c == '\U{205F}' || c == '\U{3000}'
  }

  /** Drops the leading white space: what is left is a suffix of `s`. */
  function TrimStart(s: string): (r: string)
    ensures |r| <= |s| && r == s[|s| - |r|..]
  {
    if s != [] && IsWhiteSpace(s[0]) then TrimStart(s[1..]) else s
  }

  /** Drops the trailing white space: what is left is a prefix of `s`. */
  function TrimEnd(s: string): (r: string)
    ensures |r| <= |s| && r == s[..|r|]
  {
    if s != [] && IsWhiteSpace(s[|s| - 1]) then TrimEnd(s[..|s| - 1]) else s
  }

  /** String.Trim: an infix of `s`, what is left once white space is removed at both ends. */
  function Trim(s: string): (r: string)
    ensures var i := |s| - |TrimStart(s)|; i + |r| <= |s| && r == s[i..i + |r|]
  {
    var t := TrimStart(s);
    var r := TrimEnd(t);
    assert r == s[|s| - |t|..|s| - |t| + |r|];
    r
  }

  /** TrimStart removes white space only, and all of it. */
  lemma {:induction false} TrimStartSpec(s: string)
    ensures forall k :: 0 <= k < |s| - |TrimStart(s)| ==> IsWhiteSpace(s[k])
    ensures TrimStart(s) != [] ==> !IsWhiteSpace(TrimStart(s)[0])
  {
    if s != [] && IsWhiteSpace(s[0]) {
      TrimStartSpec(s[1..]);
      forall k | 1 <= k < |s| - |TrimStart(s)| ensures IsWhiteSpace(s[k]) {
        assert s[k] == s[1..][k - 1];
      }
    }
  }

  /** TrimEnd removes white space only, and all of it. */
  lemma {:induction false} TrimEndSpec(s: string)
    ensures forall k :: |TrimEnd(s)| <= k < |s| ==> IsWhiteSpace(s[k])
    ensures TrimEnd(s) != [] ==> !IsWhiteSpace(TrimEnd(s)[|TrimEnd(s)| - 1])
  {
    if s != [] && IsWhiteSpace(s[|s| - 1]) {
      TrimEndSpec(s[..|s| - 1]);
      forall k | |TrimEnd(s)| <= k < |s| - 1 ensures IsWhiteSpace(s[k]) {
        assert s[k] == s[..|s| - 1][k];
      }
    }
  }

  /**
   * Trim removes exactly the white space at both ends: everything cut off is
   * white space, and what is left neither starts nor ends with it.
   */
  lemma {:induction false} TrimSpec(s: string)
    ensures var i := |s| - |TrimStart(s)|;
              && (forall k :: 0 <= k < i ==> IsWhiteSpace(s[k]))
              && (forall k :: i + |Trim(s)| <= k < |s| ==> IsWhiteSpace(s[k]))
    ensures Trim(s) != [] ==> !IsWhiteSpace(Trim(s)[0]) && !IsWhiteSpace(Trim(s)[|Trim(s)| - 1])
  {
    var t := TrimStart(s);
    var r := TrimEnd(t);
    assert Trim(s) == r;
    TrimStartSpec(s);
    TrimEndSpec(t);
    WhiteTail(s, t, |s| - |t|, |r|);
    if r != [] {
      assert r[0] == t[0];
    }
  }

  /** White space at the end of a suffix of `s` is white space at the end of `s`. */
  lemma WhiteTail(s: string, t: string, i: nat, n: nat)
    requires i <= |s| && t == s[i..] && n <= |t|
    requires forall k :: n <= k < |t| ==> IsWhiteSpace(t[k])
    ensures forall k :: i + n <= k < |s| ==> IsWhiteSpace(s[k])
  {
    forall k | i + n <= k < |s| ensures IsWhiteSpace(s[k]) {
      assert s[k] == t[k - i];
    }
  }

  /** Trimming twice is trimming once. */
  lemma {:induction false} TrimIdempotent(s: string)
    ensures Trim(Trim(s)) == Trim(s)
  {
    TrimSpec(s);
    TrimUnpadded(Trim(s));
  }

  /** A string that neither starts nor ends with white space is its own trimmed form. */
  lemma {:induction false} TrimUnpadded(s: string)
    requires s != [] ==> !IsWhiteSpace(s[0]) && !IsWhiteSpace(s[|s| - 1])
    ensures Trim(s) == s
  {
    assert TrimStart(s) == s;
    assert TrimEnd(s) == s;
  }

  /** No character of `s` is in `seps`. */
  predicate FreeOf(s: string, seps: set<char>) {
    forall k :: 0 <= k < |s| ==> s[k] !in seps
  }

  /** The index of the first character of `s` in `seps`, or |s| when there is none. */
  function FirstIndex(s: string, seps: set<char>): (i: nat)
    ensures i <= |s|
    ensures FreeOf(s[..i], seps)
    ensures i < |s| ==> s[i] in seps
  {
    if s == [] then 0
    else if s[0] in seps then 0
    else
      var j := FirstIndex(s[1..], seps);
      assert s[..j + 1] == [s[0]] + s[1..][..j];
      j + 1
  }

  /**
   * String.Split on a set of separator characters with StringSplitOptions.None:
   * every separator ends one part, empty parts are kept, so there is always
   * one part more than there are separators.
   */
  function Split(s: string, seps: set<char>): (parts: seq<string>)
    ensures |parts| >= 1
  {
    if s == [] then [""]
    else
      var rest := Split(s[1..], seps);
      if s[0] in seps then [""] + rest
      else [[s[0]] + rest[0]] + rest[1..]
  }

  /** No part of a split contains a separator. */
  lemma {:induction false} SplitPartsFree(s: string, seps: set<char>)
    ensures forall i :: 0 <= i < |Split(s, seps)| ==> FreeOf(Split(s, seps)[i], seps)
  {
    if s != [] {
      var rest := Split(s[1..], seps);
      SplitPartsFree(s[1..], seps);
      if s[0] !in seps {
        var p := [s[0]] + rest[0];
        forall k | 0 <= k < |p| ensures p[k] !in seps {
          if k > 0 { assert p[k] == rest[0][k - 1]; }
        }
      }
    }
  }

  /** The number of separator characters in `s`. */
  function CountOf(s: string, seps: set<char>): nat {
    if s == [] then 0 else (if s[0] in seps then 1 else 0) + CountOf(s[1..], seps)
  }

  lemma {:induction false} SplitLength(s: string, seps: set<char>)
    ensures |Split(s, seps)| == CountOf(s, seps) + 1
  {
    if s != [] { SplitLength(s[1..], seps); }
  }

  /** The first part is the text before the first separator (all of `s` when there is none). */
  lemma {:induction false} SplitHead(s: string, seps: set<char>)
    ensures Split(s, seps)[0] == s[..FirstIndex(s, seps)]
  {
    if s != [] && s[0] !in seps {
      SplitHead(s[1..], seps);
      assert s[..FirstIndex(s, seps)] == [s[0]] + s[1..][..FirstIndex(s[1..], seps)];
    }
  }

  /**
   * There are at least two parts exactly when a separator occurs, and then the
   * parts after the first are the split of the text after the first separator.
   */
  lemma {:induction false} SplitTail(s: string, seps: set<char>)
    ensures |Split(s, seps)| >= 2 <==> FirstIndex(s, seps) < |s|
    ensures FirstIndex(s, seps) < |s| ==> Split(s, seps)[1..] == Split(s[FirstIndex(s, seps) + 1..], seps)
  {
    if s != [] && s[0] !in seps {
      SplitTail(s[1..], seps);
      if FirstIndex(s[1..], seps) < |s| - 1 {
        assert s[1..][FirstIndex(s[1..], seps) + 1..] == s[FirstIndex(s, seps) + 1..];
      }
    }
  }

  /** A segment free of `c` followed by `c` is the first part of the split on `c`. */
  lemma {:induction false} SplitAfterSegment(w: string, c: char, p: string)
    requires FreeOf(w, {c})
    ensures Split(w + [c] + p, {c}) == [w] + Split(p, {c})
  {
    var s := w + [c] + p;
    var i := FirstIndex(s, {c});
    assert s[|w|] == c;
    assert s[..|w|] == w;
    assert i == |w|;
    SplitHead(s, {c});
    SplitTail(s, {c});
    assert s[i + 1..] == p;
  }

  /** String.Join: the parts with `sep` between neighbours; the empty sequence joins to "". */
  function Join(parts: seq<string>, sep: string): string {
    if parts == [] then ""
    else if |parts| == 1 then parts[0]
    else parts[0] + sep + Join(parts[1..], sep)
  }

  /** `s` with every character of `seps` replaced by `c`. */
  function Replace(s: string, seps: set<char>, c: char): (r: string)
    ensures |r| == |s|
  {
    if s == [] then [] else [if s[0] in seps then c else s[0]] + Replace(s[1..], seps, c)
  }

  /** Joining the parts of a split with one character puts that character where each separator was. */
  lemma {:induction false} JoinSplit(s: string, seps: set<char>, c: char)
    ensures Join(Split(s, seps), [c]) == Replace(s, seps, c)
  {
    if s != [] {
      var rest := Split(s[1..], seps);
      JoinSplit(s[1..], seps, c);
      if s[0] in seps {
        assert ([""] + rest)[1..] == rest;
      } else if |rest| > 1 {
        assert ([[s[0]] + rest[0]] + rest[1..])[1..] == rest[1..];
      }
    }
  }

  /** Splitting on one character and joining with it gives the text back. */
  lemma {:induction false} SplitJoinRoundTrip(s: string, c: char)
    ensures Join(Split(s, {c}), [c]) == s
  {
    JoinSplit(s, {c}, c);
    ReplaceSelf(s, c);
  }

  lemma {:induction false} ReplaceSelf(s: string, c: char)
    ensures Replace(s, {c}, c) == s
  {
    if s != [] { ReplaceSelf(s[1..], c); }
  }

  /**
   * The separator that String.Split(string[], None) recognises at the start of
   * `s`: the first non-empty entry of `seps`, in array order, that is a prefix
   * of `s`. The result is its length.
   */
  function FirstMatch(s: string, seps: seq<string>): (n: Option<nat>)
    ensures n.Some? ==> 1 <= n.value <= |s|
    ensures n.Some? ==> exists j :: 0 <= j < |seps| && |seps[j]| == n.value && seps[j] == s[..n.value]
    ensures n.None? ==> forall j :: 0 <= j < |seps| && seps[j] != "" ==> !(seps[j] <= s)
  {
    if seps == [] then None
    else if seps[0] != "" && seps[0] <= s then Some(|seps[0]|)
    else FirstMatch(s, seps[1..])
  }

  /**
   * String.Split(string[], StringSplitOptions.None): scanning from the left,
   * the first separator in array order that matches ends the current part.
   */
  function SplitOnStrings(s: string, seps: seq<string>): (parts: seq<string>)
    ensures |parts| >= 1
    decreases |s|
  {
    if s == [] then [""]
    else
      match FirstMatch(s, seps)
      case Some(n) => [""] + SplitOnStrings(s[n..], seps)
      case None =>
        var rest := SplitOnStrings(s[1..], seps);
        [[s[0]] + rest[0]] + rest[1..]
  }

  /** StringSplitOptions.RemoveEmptyEntries: the parts that are not empty, in order. */
  function RemoveEmpty(parts: seq<string>): (r: seq<string>)
    ensures forall x :: x in r <==> x in parts && x != ""
    ensures |r| <= |parts|
  {
    if parts == [] then []
    else if parts[0] == "" then RemoveEmpty(parts[1..])
    else [parts[0]] + RemoveEmpty(parts[1..])
  }

  /**
   * Dropping empty entries keeps the other entries in order, each as often as
   * it occurs: it distributes over concatenation, and one entry is kept
   * exactly when it is not empty.
   */
  lemma {:induction false} RemoveEmptyAppend(a: seq<string>, b: seq<string>)
    ensures RemoveEmpty(a + b) == RemoveEmpty(a) + RemoveEmpty(b)
    ensures |a| == 1 ==> RemoveEmpty(a) == if a[0] == "" then [] else a
    decreases a
  {
    if a == [] {
      assert a + b == b;
    } else {
      assert (a + b)[0] == a[0] && (a + b)[1..] == a[1..] + b;
      RemoveEmptyAppend(a[1..], b);
      if |a| == 1 {
        assert a[1..] == [];
      }
    }
  }

  /** Ordinal upper-casing, for the ASCII letters. */
  function ToUpperAscii(c: char): (u: char)
    ensures 'a' <= c <= 'z' ==> u as int == c as int - 32
    ensures !('a' <= c <= 'z') ==> u == c
  {
    if 'a' <= c <= 'z' then (c as int - 32) as char else c
  }

  /** String.Equals(a, b, OrdinalIgnoreCase), with ASCII case folding. */
  predicate EqualsIgnoreCase(a: string, b: string) {
    if a == [] then b == []
    else b != [] && ToUpperAscii(a[0]) == ToUpperAscii(b[0]) && EqualsIgnoreCase(a[1..], b[1..])
  }

  /** Two strings are equal ignoring case exactly when they have the same length and agree letter by letter up to case. */
  lemma {:induction false} EqualsIgnoreCaseIff(a: string, b: string)
    ensures EqualsIgnoreCase(a, b) <==> |a| == |b| && forall i :: 0 <= i < |a| ==> ToUpperAscii(a[i]) == ToUpperAscii(b[i])
  {
    if a != [] && b != [] {
      EqualsIgnoreCaseIff(a[1..], b[1..]);
      if |a| == |b| && forall i :: 0 <= i < |a| ==> ToUpperAscii(a[i]) == ToUpperAscii(b[i]) {
        forall i | 0 <= i < |a| - 1 ensures ToUpperAscii(a[1..][i]) == ToUpperAscii(b[1..][i]) {
          assert a[1..][i] == a[i + 1] && b[1..][i] == b[i + 1];
        }
      }
    }
  }

  /** `names.Any(x => x.Equals(name, StringComparison.OrdinalIgnoreCase))`. */
  predicate AnyEqualsIgnoreCase(names: seq<string>, name: string) {
    names != [] && (EqualsIgnoreCase(names[0], name) || AnyEqualsIgnoreCase(names[1..], name))
  }

  /** `Any` holds exactly when some entry of `names` equals `name` ignoring case. */
  lemma {:induction false} AnyEqualsIgnoreCaseIff(names: seq<string>, name: string)
    ensures AnyEqualsIgnoreCase(names, name) <==> exists i :: 0 <= i < |names| && EqualsIgnoreCase(names[i], name)
  {
    if names != [] {
      AnyEqualsIgnoreCaseIff(names[1..], name);
      if exists i :: 0 <= i < |names| && EqualsIgnoreCase(names[i], name) {
        var i :| 0 <= i < |names| && EqualsIgnoreCase(names[i], name);
        if i > 0 { assert names[1..][i - 1] == names[i]; }
      }
    }
  }
}
