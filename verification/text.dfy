/** The JavaScript string operations the application relies on, over `seq<char>`:
    `startsWith`, `endsWith`, `includes`, `trim`, `lastIndexOf`, `split` and `join`. */
module Text {

  predicate StartsWith(s: string, prefix: string) {
    |prefix| <= |s| && s[..|prefix|] == prefix
  }

  predicate EndsWith(s: string, suffix: string) {
    |suffix| <= |s| && s[|s| - |suffix|..] == suffix
  }

  /** `needle` occurs in `s` starting at index `i`. */
  predicate OccursAt(s: string, needle: string, i: int) {
    0 <= i && i + |needle| <= |s| && s[i..i + |needle|] == needle
  }

  /** `s.includes(needle)`, scanning from the front. */
  predicate Contains(s: string, needle: string)
    decreases |s|
  {
    StartsWith(s, needle) || (|s| > 0 && Contains(s[1..], needle))
  }

  lemma {:induction false} ContainsSpec(s: string, needle: string)
    ensures Contains(s, needle) <==> exists i :: OccursAt(s, needle, i)
    decreases |s|
  {
    if StartsWith(s, needle) {
      assert OccursAt(s, needle, 0);
    } else if |s| > 0 {
      ContainsSpec(s[1..], needle);
      if Contains(s[1..], needle) {
        var i :| OccursAt(s[1..], needle, i);
        TailSlice(s, i + 1, |needle|);
        assert OccursAt(s, needle, i + 1);
      } else {
        forall i | OccursAt(s, needle, i)
          ensures false
        {
          if i > 0 {
            TailSlice(s, i, |needle|);
            assert OccursAt(s[1..], needle, i - 1);
          }
        }
      }
    } else {
      assert forall i :: OccursAt(s, needle, i) ==> i == 0 && needle == "";
    }
  }

  lemma TailSlice(s: string, i: nat, len: nat)
    requires 1 <= i && i + len <= |s|
    ensures s[1..][i - 1..i - 1 + len] == s[i..i + len]
  {
  }

  /** The characters `String.prototype.trim` removes: ECMAScript WhiteSpace and LineTerminator. */
  predicate IsWhitespace(c: char) {
    || c == '\t' || c == '\n' || c == '\U{B}' || c == '\U{C}' || c == '\r' || c == ' '
    || c == '\U{A0}' || c == '\U{1680}' || ('\U{2000}' <= c <= '\U{200A}')
    || c == '\U{2028}' || c == '\U{2029}' || c == '\U{202F}' || c == '\U{205F}' || c == '\U{3000}'
    || c == '\U{FEFF}'
  }

  predicate IsBlank(s: string) {
    forall k :: 0 <= k < |s| ==> IsWhitespace(s[k])
  }

  function TrimStart(s: string): (r: string)
    ensures |r| <= |s| && r == s[|s| - |r|..]
    ensures forall k :: 0 <= k < |s| - |r| ==> IsWhitespace(s[k])
    ensures |r| > 0 ==> !IsWhitespace(r[0])
    decreases |s|
  {
    if |s| > 0 && IsWhitespace(s[0]) then TrimStart(s[1..]) else s
  }

  function TrimEnd(s: string): (r: string)
    ensures |r| <= |s| && r == s[..|r|]
    ensures forall k :: |r| <= k < |s| ==> IsWhitespace(s[k])
    ensures |r| > 0 ==> !IsWhitespace(r[|r| - 1])
    decreases |s|
  {
    if |s| > 0 && IsWhitespace(s[|s| - 1]) then TrimEnd(s[..|s| - 1]) else s
  }

  /** `s.trim()`: the infix left after removing leading and trailing whitespace. */
  function Trim(s: string): string {
    TrimEnd(TrimStart(s))
  }

  /** What `trim` keeps: the infix of `s` starting at `m` that neither starts nor
      ends with whitespace, with only whitespace before and after it; empty
      exactly when `s` is all whitespace. */
  lemma TrimSpec(s: string)
    ensures OccursAt(s, Trim(s), |s| - |TrimStart(s)|)
    ensures IsBlank(s[..|s| - |TrimStart(s)|])
    ensures IsBlank(s[|s| - |TrimStart(s)| + |Trim(s)|..])
    ensures |Trim(s)| > 0 ==> !IsWhitespace(Trim(s)[0]) && !IsWhitespace(Trim(s)[|Trim(s)| - 1])
    ensures Trim(s) == "" <==> IsBlank(s)
  {
    assert OccursAt(s, Trim(s), |s| - |TrimStart(s)|) by { TrimInfix(s); }
    assert IsBlank(s[..|s| - |TrimStart(s)|]) by { StartTrimmedBlank(s); }
    assert IsBlank(s[|s| - |TrimStart(s)| + |Trim(s)|..]) by { TrimmedTailBlank(s); }
    assert |Trim(s)| > 0 ==> !IsWhitespace(Trim(s)[0]) && !IsWhitespace(Trim(s)[|Trim(s)| - 1]) by {
      TrimmedEnds(s);
    }
    assert Trim(s) == "" <==> IsBlank(s) by { TrimBlank(s); }
  }

  /** The kept infix neither starts nor ends with whitespace. */
  lemma TrimmedEnds(s: string)
    ensures |Trim(s)| > 0 ==> !IsWhitespace(Trim(s)[0]) && !IsWhitespace(Trim(s)[|Trim(s)| - 1])
  {
    var t := TrimStart(s);
    var r := TrimEnd(t);
    if |r| > 0 {
      assert r[0] == t[0];
    }
  }

  /** What `TrimStart` removes is whitespace. */
  lemma StartTrimmedBlank(s: string)
    ensures IsBlank(s[..|s| - |TrimStart(s)|])
  {
    var m := |s| - |TrimStart(s)|;
    forall k | 0 <= k < m
      ensures IsWhitespace(s[..m][k])
    {
      assert s[..m][k] == s[k];
    }
  }

  /** What `TrimEnd` removes is whitespace. */
  lemma EndTrimmedBlank(t: string)
    ensures IsBlank(t[|TrimEnd(t)|..])
  {
    var u := t[|TrimEnd(t)|..];
    forall k | 0 <= k < |u|
      ensures IsWhitespace(u[k])
    {
      assert u[k] == t[|TrimEnd(t)| + k];
    }
  }

  /** What follows the trimmed infix in `s` is what `TrimEnd` removed. */
  lemma TrimmedTailBlank(s: string)
    ensures IsBlank(s[|s| - |TrimStart(s)| + |Trim(s)|..])
  {
    var t := TrimStart(s);
    EndTrimmedBlank(t);
    assert s[|s| - |t| + |Trim(s)|..] == t[|Trim(s)|..];
  }

  lemma TrimInfix(s: string)
    ensures OccursAt(s, TrimEnd(TrimStart(s)), |s| - |TrimStart(s)|)
  {
    var t := TrimStart(s);
    var r := TrimEnd(t);
    var m := |s| - |t|;
    assert r == t[..|r|];
    PrefixOfSuffix(s, m, |r|);
  }

  lemma PrefixOfSuffix(s: string, m: nat, len: nat)
    requires m + len <= |s|
    ensures s[m..][..len] == s[m..m + len]
  {
  }

  lemma TrimBlank(s: string)
    ensures TrimEnd(TrimStart(s)) == "" <==> IsBlank(s)
  {
    var t := TrimStart(s);
    var r := TrimEnd(t);
    var m := |s| - |t|;
    if r == "" {
      assert t == "";
    } else {
      assert r[0] == t[0] == s[m];
    }
  }

  /** `s.lastIndexOf(c)`: the index of the last `c`, or -1 when there is none. */
  function LastIndexOf(s: string, c: char): (k: int)
    ensures -1 <= k < |s|
    ensures k >= 0 ==> s[k] == c
    ensures forall j :: k < j < |s| ==> s[j] != c
    decreases |s|
  {
    if |s| == 0 then -1
    else if s[|s| - 1] == c then |s| - 1
    else LastIndexOf(s[..|s| - 1], c)
  }

  /** `s.split(d)` for a one-character separator: the maximal `d`-free pieces, in order. */
  function Split(s: string, d: char): (parts: seq<string>)
    ensures |parts| >= 1
    decreases |s|
  {
    if |s| == 0 then [""]
    else if s[0] == d then [""] + Split(s[1..], d)
    else
      var rest := Split(s[1..], d);
      [[s[0]] + rest[0]] + rest[1..]
  }

  /** `parts.join(d)`. */
  function Join(parts: seq<string>, d: char): string
    decreases |parts|
  {
    if |parts| == 0 then ""
    else if |parts| == 1 then parts[0]
    else parts[0] + [d] + Join(parts[1..], d)
  }

  /** `s.split(d).slice(0, -1).join(d)`: `s` without its last `d`-segment. */
  function DropLastSegment(s: string, d: char): string {
    var parts := Split(s, d);
    Join(parts[..|parts| - 1], d)
  }

  lemma JoinCons(a: string, ps: seq<string>, d: char)
    ensures Join([a] + ps, d) == if |ps| == 0 then a else a + [d] + Join(ps, d)
  {
    assert ([a] + ps)[1..] == ps;
  }

  /** Joining empty strings leaves only the separators between them. */
  lemma {:induction false} JoinEmpties(parts: seq<string>, d: char)
    requires |parts| > 0 && forall i :: 0 <= i < |parts| ==> parts[i] == ""
    ensures Join(parts, d) == seq(|parts| - 1, _ => d)
    decreases |parts|
  {
    if |parts| > 1 {
      JoinEmpties(parts[1..], d);
      assert seq(|parts| - 1, _ => d) == [d] + seq(|parts| - 2, _ => d);
    }
  }

  lemma {:induction false} SplitSingle(s: string, d: char)
    ensures d !in s <==> |Split(s, d)| == 1
    ensures d !in s ==> Split(s, d) == [s]
    decreases |s|
  {
    if |s| > 0 {
      SplitSingle(s[1..], d);
      assert s == [s[0]] + s[1..];
    }
  }

  lemma {:induction false} JoinSplit(s: string, d: char)
    ensures Join(Split(s, d), d) == s
    decreases |s|
  {
    if |s| > 0 {
      var rest := Split(s[1..], d);
      JoinSplit(s[1..], d);
      SplitStep(s, d);
      if s[0] == d {
        JoinCons("", rest, d);
      } else {
        JoinCons([s[0]] + rest[0], rest[1..], d);
        JoinCons(rest[0], rest[1..], d);
        assert [rest[0]] + rest[1..] == rest;
      }
    }
  }

  lemma {:induction false} SplitPiecesFree(s: string, d: char)
    ensures forall i :: 0 <= i < |Split(s, d)| ==> d !in Split(s, d)[i]
    decreases |s|
  {
    if |s| > 0 {
      var rest := Split(s[1..], d);
      SplitPiecesFree(s[1..], d);
      SplitStep(s, d);
      var parts := Split(s, d);
      forall i | 0 <= i < |parts|
        ensures d !in parts[i]
      {
        if i > 0 {
          assert parts[i] == rest[i - (if s[0] == d then 1 else 0)];
        }
      }
    }
  }

  /** `split` then `join` gives back the text, and no piece holds the separator. */
  lemma SplitJoin(s: string, d: char)
    ensures Join(Split(s, d), d) == s
    ensures forall i :: 0 <= i < |Split(s, d)| ==> d !in Split(s, d)[i]
  {
    JoinSplit(s, d);
    SplitPiecesFree(s, d);
  }

  lemma SplitStep(s: string, d: char)
    requires |s| > 0
    ensures s[0] == d ==> Split(s, d) == [""] + Split(s[1..], d)
    ensures s[0] != d ==> Split(s, d) == [[s[0]] + Split(s[1..], d)[0]] + Split(s[1..], d)[1..]
  {
  }

  lemma DropLastSegmentStep(s: string, d: char)
    requires |s| > 0
    ensures d in s[1..] ==> DropLastSegment(s, d) == [s[0]] + DropLastSegment(s[1..], d)
    ensures d !in s[1..] ==> DropLastSegment(s, d) == ""
  {
    var rest := Split(s[1..], d);
    SplitSingle(s[1..], d);
    SplitStep(s, d);
    if s[0] == d {
      DropLeadingEmpty(rest, d);
    } else if |rest| >= 2 {
      DropExtendedHead(s[0], rest, d);
    }
  }

  lemma DropLeadingEmpty(rest: seq<string>, d: char)
    requires |rest| >= 1
    ensures var parts := [""] + rest;
      Join(parts[..|parts| - 1], d) ==
        if |rest| == 1 then "" else [d] + Join(rest[..|rest| - 1], d)
  {
    var parts := [""] + rest;
    var q := rest[..|rest| - 1];
    assert parts[..|parts| - 1] == [""] + q;
    JoinCons("", q, d);
  }

  lemma DropExtendedHead(c: char, rest: seq<string>, d: char)
    requires |rest| >= 2
    ensures var parts := [[c] + rest[0]] + rest[1..];
      Join(parts[..|parts| - 1], d) == [c] + Join(rest[..|rest| - 1], d)
  {
    var parts := [[c] + rest[0]] + rest[1..];
    var q := rest[..|rest| - 1];
    assert parts[..|parts| - 1] == [[c] + rest[0]] + q[1..];
    assert q == [rest[0]] + q[1..];
    JoinCons([c] + rest[0], q[1..], d);
    JoinCons(rest[0], q[1..], d);
  }

  /** Dropping the last segment keeps exactly the text before the last `d`, and
      nothing at all when `s` has no `d`. */
  lemma {:induction false} DropLastSegmentSpec(s: string, d: char)
    ensures d !in s ==> DropLastSegment(s, d) == ""
    ensures d in s ==> DropLastSegment(s, d) == s[..LastIndexOf(s, d)]
    decreases |s|
  {
    var r := DropLastSegment(s, d);
    if d !in s {
      SplitSingle(s, d);
    } else {
      DropLastSegmentStep(s, d);
      if d in s[1..] {
        DropLastSegmentSpec(s[1..], d);
        var k := LastIndexOf(s[1..], d);
        LastIndexUnique(s, d, k + 1);
      } else {
        assert s[0] == d by { assert s == [s[0]] + s[1..]; }
        LastIndexUnique(s, d, 0);
      }
    }
  }

  /** The text after the last `c` holds no `c`. */
  lemma NoneAfterLast(s: string, c: char)
    ensures c !in s[LastIndexOf(s, c) + 1..]
  {
    var k := LastIndexOf(s, c);
    var t := s[k + 1..];
    forall j | 0 <= j < |t|
      ensures t[j] != c
    {
      assert t[j] == s[k + 1 + j];
    }
  }

  /** Any index holding `c` with no `c` after it is the one `LastIndexOf` finds. */
  lemma LastIndexUnique(s: string, c: char, k: int)
    requires 0 <= k < |s| && s[k] == c
    requires forall j :: k < j < |s| ==> s[j] != c
    ensures LastIndexOf(s, c) == k
  {
  }
}
