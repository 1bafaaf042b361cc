/** The few Python `str` operations the bot relies on, with Python's meaning:
    `startswith`, `split(sep)`, `sep.join`, `lstrip(chars)`, `rstrip(chars)`,
    `strip(chars)`, `replace(c, "")`, `upper()` and `" " * n`. */
module PyStr {
  import opened Wrappers
  import opened Lists

  /** Python `s.startswith(prefix)`. */
  predicate StartsWith(s: string, prefix: string) {
    |prefix| <= |s| && s[..|prefix|] == prefix
  }

  /** `sep` occurs in `s` at index `i`. */
  predicate OccursAt(s: string, sep: string, i: nat) {
    i + |sep| <= |s| && s[i..i + |sep|] == sep
  }

  /** Python `s.find(sep)`, with `None` for -1: the first index at which `sep` occurs. */
  function Find(s: string, sep: string): (r: Option<nat>)
    requires |sep| > 0
    ensures r.Some? ==> OccursAt(s, sep, r.value)
    ensures r.Some? ==> forall j: nat :: j < r.value ==> !OccursAt(s, sep, j)
    ensures r.None? ==> forall j: nat :: !OccursAt(s, sep, j)
    decreases |s|
  {
    if |s| < |sep| then None
    else if s[..|sep|] == sep then Some(0)
    else
      match Find(s[1..], sep)
      case None =>
        NoneShift(s, sep);
        None
      case Some(k) =>
        SomeShift(s, sep, k);
        Some(k + 1)
  }

  /** An occurrence one place further in `s` is an occurrence in its tail. */
  lemma OccursShift(s: string, sep: string, j: nat)
    requires |s| > 0
    ensures OccursAt(s, sep, j + 1) <==> OccursAt(s[1..], sep, j)
  {
    if j + 1 + |sep| <= |s| {
      assert s[1..][j..j + |sep|] == s[j + 1..j + 1 + |sep|];
    }
  }

  lemma NoneShift(s: string, sep: string)
    requires |s| >= |sep| > 0 && s[..|sep|] != sep
    requires forall j: nat :: !OccursAt(s[1..], sep, j)
    ensures forall j: nat :: !OccursAt(s, sep, j)
  {
    forall j: nat
      ensures !OccursAt(s, sep, j)
    {
      if j > 0 {
        OccursShift(s, sep, j - 1);
      }
    }
  }

  lemma SomeShift(s: string, sep: string, k: nat)
    requires |s| >= |sep| > 0 && s[..|sep|] != sep
    requires OccursAt(s[1..], sep, k) && forall j: nat :: j < k ==> !OccursAt(s[1..], sep, j)
    ensures OccursAt(s, sep, k + 1) && forall j: nat :: j < k + 1 ==> !OccursAt(s, sep, j)
  {
    OccursShift(s, sep, k);
    forall j: nat | j < k + 1
      ensures !OccursAt(s, sep, j)
    {
      if j > 0 {
        OccursShift(s, sep, j - 1);
      }
    }
  }

  /** Python `s.split(sep)` for a non-empty separator: the pieces between the
      occurrences of `sep`, scanned left to right without overlap. There is
      always at least one piece (`"".split(", ") == [""]`). */
  function Split(s: string, sep: string): (r: seq<string>)
    requires |sep| > 0
    ensures |r| >= 1
    decreases |s|
  {
    match Find(s, sep)
    case None => [s]
    case Some(i) => [s[..i]] + Split(s[i + |sep|..], sep)
  }

  /** The first piece of `Split(s, sep)`: `s` up to the first occurrence of `sep`. */
  function UpTo(s: string, sep: string): string
    requires |sep| > 0
  {
    match Find(s, sep)
    case None => s
    case Some(i) => s[..i]
  }

  /** Python `sep.join(parts)`. */
  function Join(parts: seq<string>, sep: string): string
  {
    if parts == [] then ""
    else if |parts| == 1 then parts[0]
    else parts[0] + sep + Join(parts[1..], sep)
  }

  /** The first piece of a split is the text before the first separator, and
      there is a second piece exactly when the separator occurs. */
  lemma {:induction false} SplitFirst(s: string, sep: string)
    requires |sep| > 0
    ensures Split(s, sep)[0] == UpTo(s, sep)
    ensures |Split(s, sep)| > 1 <==> Find(s, sep).Some?
    ensures Find(s, sep).Some? ==>
              Split(s, sep)[1] == UpTo(s[Find(s, sep).value + |sep|..], sep)
  {
    SplitHead(s, sep);
    match Find(s, sep)
    case None =>
    case Some(i) =>
      var rest := s[i + |sep|..];
      SplitHead(rest, sep);
      assert Split(s, sep) == [s[..i]] + Split(rest, sep);
  }

  /** The first piece of a split is the text up to the first separator. */
  lemma {:induction false} SplitHead(s: string, sep: string)
    requires |sep| > 0
    ensures Split(s, sep)[0] == UpTo(s, sep)
  {
    match Find(s, sep)
    case None =>
      assert Split(s, sep) == [s];
    case Some(i) =>
      assert Split(s, sep) == [s[..i]] + Split(s[i + |sep|..], sep);
  }

  /** Joining the pieces of a split with the same separator gives back the text. */
  lemma {:induction false} JoinSplit(s: string, sep: string)
    requires |sep| > 0
    ensures Join(Split(s, sep), sep) == s
    decreases |s|
  {
    var f := Find(s, sep);
    if f.Some? {
      var i := f.value;
      var rest := s[i + |sep|..];
      JoinSplit(rest, sep);
      JoinCons(s[..i], Split(rest, sep), sep);
      SplitAround(s, sep, i);
    }
  }

  lemma JoinCons(head: string, tail: seq<string>, sep: string)
    requires |tail| >= 1
    ensures Join([head] + tail, sep) == head + sep + Join(tail, sep)
  {
    assert ([head] + tail)[1..] == tail;
  }

  lemma SplitAround(s: string, sep: string, i: nat)
    requires OccursAt(s, sep, i)
    ensures s == s[..i] + sep + s[i + |sep|..]
  {
    assert s == s[..i] + s[i..i + |sep|] + s[i + |sep|..];
  }

  /** Every piece of `Split(s, sep)` is free of `sep`. */
  lemma {:induction false} SplitPiecesFree(s: string, sep: string)
    requires |sep| > 0
    ensures forall k :: 0 <= k < |Split(s, sep)| ==> Find(Split(s, sep)[k], sep).None?
    decreases |s|
  {
    match Find(s, sep)
    case None =>
    case Some(i) =>
      var rest := s[i + |sep|..];
      SplitPiecesFree(rest, sep);
      var head := s[..i];
      if Find(head, sep).Some? {
        var j := Find(head, sep).value;
        assert head[j..j + |sep|] == s[j..j + |sep|];
        assert OccursAt(s, sep, j);
        assert false;
      }
      assert Split(s, sep) == [head] + Split(rest, sep);
  }

  /** Every piece of `Split(s, sep)` is a factor of `s`: a character of a piece
      is a character of `s`. */
  lemma {:induction false} SplitPiecesFromText(s: string, sep: string)
    requires |sep| > 0
    ensures forall k, x :: 0 <= k < |Split(s, sep)| && x in Split(s, sep)[k] ==> x in s
    decreases |s|
  {
    match Find(s, sep)
    case None =>
    case Some(i) =>
      var rest := s[i + |sep|..];
      SplitPiecesFromText(rest, sep);
      assert Split(s, sep) == [s[..i]] + Split(rest, sep);
      forall k, x | 0 <= k < |Split(s, sep)| && x in Split(s, sep)[k] ensures x in s {
        if k == 0 {
          assert x in s[..i];
        } else {
          assert Split(s, sep)[k] == Split(rest, sep)[k - 1];
          assert x in rest;
        }
      }
  }

  /** Python `s.lstrip(chars)`: removes the longest prefix made only of
      characters of the SET `chars` (not a prefix string). */
  function LStrip(s: string, chars: set<char>): (r: string)
    ensures |r| <= |s| && r == s[|s| - |r|..]
    ensures forall i :: 0 <= i < |s| - |r| ==> s[i] in chars
    ensures r == [] || r[0] !in chars
    decreases |s|
  {
    if |s| > 0 && s[0] in chars then
      var r := LStrip(s[1..], chars);
      LStripShift(s, r, chars);
      r
    else s
  }

  lemma LStripShift(s: string, r: string, chars: set<char>)
    requires |s| > 0 && s[0] in chars && |r| <= |s| - 1 && r == s[1..][|s| - 1 - |r|..]
    requires forall i :: 0 <= i < |s| - 1 - |r| ==> s[1..][i] in chars
    ensures r == s[|s| - |r|..]
    ensures forall i :: 0 <= i < |s| - |r| ==> s[i] in chars
  {
    assert s[1..][|s| - 1 - |r|..] == s[|s| - |r|..];
    forall i | 0 <= i < |s| - |r|
      ensures s[i] in chars
    {
      if i > 0 {
        assert s[i] == s[1..][i - 1];
      }
    }
  }

  /** Python `s.rstrip(chars)`: removes the longest suffix made only of
      characters of the set `chars`. */
  function RStrip(s: string, chars: set<char>): (r: string)
    ensures |r| <= |s| && r == s[..|r|]
    ensures forall i :: |r| <= i < |s| ==> s[i] in chars
    ensures r == [] || r[|r| - 1] !in chars
    decreases |s|
  {
    if |s| > 0 && s[|s| - 1] in chars then
      var r := RStrip(s[..|s| - 1], chars);
      RStripShift(s, s[..|s| - 1], r, chars);
      r
    else s
  }

  lemma RStripShift(s: string, t: string, r: string, chars: set<char>)
    requires |s| > 0 && s[|s| - 1] in chars && t == s[..|s| - 1] && |r| <= |t| && r == t[..|r|]
    requires forall i :: |r| <= i < |t| ==> t[i] in chars
    ensures r == s[..|r|]
    ensures forall i :: |r| <= i < |s| ==> s[i] in chars
  {
    assert t[..|r|] == s[..|r|];
    forall i | |r| <= i < |s|
      ensures s[i] in chars
    {
      if i < |s| - 1 {
        assert s[i] == t[i];
      }
    }
  }

  /** Python `s.strip(chars)`: both ends cut as by `lstrip` and `rstrip`. */
  function Strip(s: string, chars: set<char>): (r: string)
    ensures r == [] || (r[0] !in chars && r[|r| - 1] !in chars)
  {
    RStrip(LStrip(s, chars), chars)
  }

  /** `Strip` keeps a middle slice of `s` as it is; what it cuts on either side
      is made of characters of `chars`. */
  lemma {:induction false} StripSlice(s: string, chars: set<char>) returns (i: nat, j: nat)
    ensures i <= j <= |s| && Strip(s, chars) == s[i..j]
    ensures forall k :: 0 <= k < i ==> s[k] in chars
    ensures forall k :: j <= k < |s| ==> s[k] in chars
  {
    var l := LStrip(s, chars);
    var r := RStrip(l, chars);
    assert Strip(s, chars) == r;
    i := |s| - |l|;
    j := i + |r|;
    assert l == s[i..];
    InnerSlice(s, l, r, chars, i);
  }

  /** A prefix `r` of a suffix `l` of `s` is a slice of `s`, and whatever
      follows `r` in `l` follows it in `s`. */
  lemma InnerSlice(s: string, l: string, r: string, chars: set<char>, i: nat)
    requires i <= |s| && l == s[i..] && |r| <= |l| && r == l[..|r|]
    requires forall k :: |r| <= k < |l| ==> l[k] in chars
    ensures r == s[i..i + |r|]
    ensures forall k :: i + |r| <= k < |s| ==> s[k] in chars
  {
    forall k | i + |r| <= k < |s|
      ensures s[k] in chars
    {
      assert s[k] == l[k - i];
    }
  }

  lemma StripAbsent(s: string, chars: set<char>, c: char)
    requires c !in s
    ensures c !in Strip(s, chars)
  {
    var i, j := StripSlice(s, chars);
    assert forall k :: i <= k < j ==> s[i..j][k - i] == s[k];
  }

  /** Python `s.replace(c, "")` for a single character `c`. */
  function Remove(s: string, c: char): (r: string)
    ensures c !in r
    ensures multiset(r) == multiset(s)[c := 0]
    ensures InOrder(r, s)
  {
    if s == [] then []
    else
      var t := s[1..];
      assert s == [s[0]] + t;
      var rest := Remove(t, c);
      if s[0] == c then
        RemoveSkip(s[0], t, rest, c);
        rest
      else
        RemoveKeep(s[0], t, rest, c);
        [s[0]] + rest
  }

  lemma RemoveSkip(x: char, t: string, rest: string, c: char)
    requires x == c && multiset(rest) == multiset(t)[c := 0] && InOrder(rest, t) && c !in rest
    ensures multiset(rest) == multiset([x] + t)[c := 0] && InOrder(rest, [x] + t)
  {
    assert multiset([x] + t) == multiset{x} + multiset(t);
    InOrderSkip(x, t, rest);
  }

  lemma RemoveKeep(x: char, t: string, rest: string, c: char)
    requires x != c && multiset(rest) == multiset(t)[c := 0] && InOrder(rest, t) && c !in rest
    ensures c !in [x] + rest
    ensures multiset([x] + rest) == multiset([x] + t)[c := 0] && InOrder([x] + rest, [x] + t)
  {
    assert multiset([x] + t) == multiset{x} + multiset(t);
    assert multiset([x] + rest) == multiset{x} + multiset(rest);
    assert x in t ==> x in multiset(rest);
    InOrderCons(x, t, rest);
  }

  /** Removing a character works piece by piece, so the kept characters
      stay in their order. */
  lemma {:induction false} RemoveAppend(a: string, b: string, c: char)
    ensures Remove(a + b, c) == Remove(a, c) + Remove(b, c)
  {
    if a == [] {
      assert a + b == b;
    } else {
      assert (a + b)[0] == a[0];
      assert (a + b)[1..] == a[1..] + b;
      RemoveAppend(a[1..], b, c);
    }
  }

  /** Python `ch.upper()` on ASCII letters; any other character is kept. */
  function UpperChar(ch: char): char {
    if 'a' <= ch <= 'z' then (ch as int - 32) as char else ch
  }

  /** Python `s.upper()`, character by character. */
  function Upper(s: string): (r: string)
    ensures |r| == |s|
    ensures forall i :: 0 <= i < |s| ==>
              if 'a' <= s[i] <= 'z' then r[i] as int == s[i] as int - 32 else r[i] == s[i]
    ensures forall i :: 0 <= i < |r| ==> !('a' <= r[i] <= 'z')
  {
    seq(|s|, i requires 0 <= i < |s| => UpperChar(s[i]))
  }

  /** Python `" " * n`. */
  function Spaces(n: nat): (r: string)
    ensures |r| == n && forall i :: 0 <= i < n ==> r[i] == ' '
  {
    seq(n, _ => ' ')
  }

  /** How many times `c` occurs in `s`. */
  function Count(s: string, c: char): nat
  {
    if s == [] then 0 else (if s[0] == c then 1 else 0) + Count(s[1..], c)
  }

  lemma {:induction false} CountAppend(a: string, b: string, c: char)
    ensures Count(a + b, c) == Count(a, c) + Count(b, c)
  {
    if a == [] {
      assert a + b == b;
    } else {
      assert (a + b)[0] == a[0];
      assert (a + b)[1..] == a[1..] + b;
      CountAppend(a[1..], b, c);
    }
  }

  lemma {:induction false} CountAbsent(s: string, c: char)
    requires c !in s
    ensures Count(s, c) == 0
  {
    if s != [] {
      assert c !in s[1..];
      CountAbsent(s[1..], c);
    }
  }

  /** A joined list holds a character only if a part or the separator does. */
  lemma {:induction false} JoinChars(parts: seq<string>, sep: string, c: char)
    requires c !in sep
    requires forall k :: 0 <= k < |parts| ==> c !in parts[k]
    ensures c !in Join(parts, sep)
  {
    if |parts| > 1 {
      JoinChars(parts[1..], sep, c);
    }
  }
}
