/**
 * String helpers with the meaning Python gives the corresponding str operations:
 * whitespace as str.isspace() and the regular-expression class \s see it,
 * strip, replace, split, substring search and (ASCII) case mapping.
 */
module Text {
  import opened Options

  /** The code points for which Python's str.isspace() holds; \s in a str pattern matches the same set. */
  predicate IsSpace(c: char) {
    var n := c as int;
    (9 <= n <= 13) || (28 <= n <= 32) || n == 0x85 || n == 0xA0 || n == 0x1680
    || (0x2000 <= n <= 0x200A) || n == 0x2028 || n == 0x2029 || n == 0x202F
    || n == 0x205F || n == 0x3000
  }

  predicate IsDoubleQuote(c: char) { c == '"' }

  predicate IsSingleQuote(c: char) { c == '\'' }

  /** t occurs in s starting at index i. */
  predicate OccursAt(s: string, t: string, i: nat) {
    i + |t| <= |s| && s[i..i + |t|] == t
  }

  /** The first index at or after i where t occurs in s (str.find with a start index). */
  function FindFrom(s: string, t: string, i: nat): (r: Option<nat>)
    requires i <= |s|
    ensures r.Some? ==> i <= r.value && OccursAt(s, t, r.value)
    decreases |s| - i
  {
    if i + |t| > |s| then None
    else if OccursAt(s, t, i) then Some(i)
    else FindFrom(s, t, i + 1)
  }

  /** FindFrom finds the first occurrence: there is none before it, and none at all when it finds nothing. */
  lemma {:induction false} FindFromFirst(s: string, t: string, i: nat)
    requires i <= |s|
    ensures FindFrom(s, t, i).Some? ==> forall j :: i <= j < FindFrom(s, t, i).value ==> !OccursAt(s, t, j)
    ensures FindFrom(s, t, i).None? ==> forall j :: i <= j ==> !OccursAt(s, t, j)
    decreases |s| - i
  {
    if i + |t| <= |s| && !OccursAt(s, t, i) {
      FindFromFirst(s, t, i + 1);
    }
  }

  /** Python's `t in s`. */
  predicate Contains(s: string, t: string) {
    FindFrom(s, t, 0).Some?
  }

  /** `t in s` holds exactly when t occurs somewhere in s. */
  lemma ContainsIff(s: string, t: string)
    ensures Contains(s, t) <==> exists i: nat :: OccursAt(s, t, i)
  {
    FindFromFirst(s, t, 0);
    if Contains(s, t) {
      assert OccursAt(s, t, FindFrom(s, t, 0).value);
    }
  }

  /** Removes the longest prefix whose characters all satisfy drop. */
  function TrimStart(s: string, drop: char -> bool): (r: string)
    ensures |r| <= |s| && r == s[|s| - |r|..]
    ensures r != [] ==> !drop(r[0])
    decreases |s|
  {
    if s != [] && drop(s[0]) then TrimStart(s[1..], drop) else s
  }

  /** Every character TrimStart removes satisfies drop. */
  lemma {:induction false} TrimStartDrops(s: string, drop: char -> bool)
    ensures forall i :: 0 <= i < |s| - |TrimStart(s, drop)| ==> drop(s[i])
    decreases |s|
  {
    if s != [] && drop(s[0]) {
      TrimStartDrops(s[1..], drop);
      assert forall i :: 1 <= i < |s| ==> s[i] == s[1..][i - 1];
    }
  }

  /** Removes the longest suffix whose characters all satisfy drop. */
  function TrimEnd(s: string, drop: char -> bool): (r: string)
    ensures |r| <= |s| && r == s[..|r|]
    ensures r != [] ==> !drop(r[|r| - 1])
    decreases |s|
  {
    if s != [] && drop(s[|s| - 1]) then TrimEnd(s[..|s| - 1], drop) else s
  }

  /** Every character TrimEnd removes satisfies drop. */
  lemma {:induction false} TrimEndDrops(s: string, drop: char -> bool)
    ensures forall i :: |TrimEnd(s, drop)| <= i < |s| ==> drop(s[i])
    decreases |s|
  {
    if s != [] && drop(s[|s| - 1]) {
      TrimEndDrops(s[..|s| - 1], drop);
      assert forall i :: 0 <= i < |s| - 1 ==> s[i] == s[..|s| - 1][i];
    }
  }

  /** Python's s.strip(chars) for the characters that satisfy drop: both ends, every such character. */
  function StripBy(s: string, drop: char -> bool): (r: string)
    ensures r != [] ==> !drop(r[0]) && !drop(r[|r| - 1])
    ensures (s == [] || (!drop(s[0]) && !drop(s[|s| - 1]))) ==> r == s
  {
    var t := TrimStart(s, drop);
    var r := TrimEnd(t, drop);
    assert r != [] ==> r[0] == t[0];
    r
  }

  /** Python's s.strip() with no argument. */
  function Strip(s: string): (r: string)
    ensures r != [] ==> !IsSpace(r[0]) && !IsSpace(r[|r| - 1])
    ensures (s == [] || (!IsSpace(s[0]) && !IsSpace(s[|s| - 1]))) ==> r == s
  {
    StripBy(s, IsSpace)
  }

  /** No two adjacent asterisks. */
  predicate NoDoubleStar(s: string) {
    forall i :: 0 <= i < |s| - 1 ==> !(s[i] == '*' && s[i + 1] == '*')
  }

  /** Python's s.replace("**", ""): occurrences are found left to right and do not overlap. */
  function RemoveDoubleStars(s: string): (r: string)
    ensures NoDoubleStar(r)
    ensures |r| <= |s|
    ensures s != [] && s[0] != '*' ==> r != [] && r[0] == s[0]
    decreases |s|
  {
    if |s| >= 2 && s[0] == '*' && s[1] == '*' then RemoveDoubleStars(s[2..])
    else if s == [] then []
    else
      var rest := RemoveDoubleStars(s[1..]);
      assert |s| >= 2 && s[0] == '*' ==> rest != [] && rest[0] == s[1];
      [s[0]] + rest
  }

  /** A contiguous piece of a string without "**" has none either. */
  lemma NoDoubleStarSlice(s: string, a: nat, b: nat)
    requires a <= b <= |s| && NoDoubleStar(s)
    ensures NoDoubleStar(s[a..b])
  {
    forall i | 0 <= i < b - a - 1
      ensures !(s[a..b][i] == '*' && s[a..b][i + 1] == '*')
    {
      assert s[a..b][i] == s[a + i] && s[a..b][i + 1] == s[a + i + 1];
    }
  }

  /** Stripping characters from the ends cannot create a "**". */
  lemma StripByKeepsNoDoubleStar(s: string, drop: char -> bool)
    requires NoDoubleStar(s)
    ensures NoDoubleStar(StripBy(s, drop))
  {
    var t := TrimStart(s, drop);
    NoDoubleStarSlice(s, |s| - |t|, |s|);
    assert t == s[|s| - |t|..|s|];
    var r := TrimEnd(t, drop);
    NoDoubleStarSlice(t, 0, |r|);
    assert r == t[0..|r|];
  }

  /** Python's sep.join(parts). */
  function Join(parts: seq<string>, sep: string): string
    decreases |parts|
  {
    if parts == [] then []
    else if |parts| == 1 then parts[0]
    else parts[0] + sep + Join(parts[1..], sep)
  }

  /** Python's s.split(sep) for a non-empty separator: cut at each leftmost, non-overlapping occurrence. */
  function Split(s: string, sep: string): (parts: seq<string>)
    requires sep != []
    ensures |parts| >= 1
    decreases |s|
  {
    match FindFrom(s, sep, 0)
    case None => [s]
    case Some(i) => [s[..i]] + Split(s[i + |sep|..], sep)
  }

  /** The parts joined by the separator give back s. */
  lemma {:induction false} SplitJoin(s: string, sep: string)
    requires sep != []
    ensures Join(Split(s, sep), sep) == s
    decreases |s|
  {
    match FindFrom(s, sep, 0)
    case None =>
    case Some(i) =>
      var rest := Split(s[i + |sep|..], sep);
      SplitJoin(s[i + |sep|..], sep);
      assert s == s[..i] + s[i..i + |sep|] + s[i + |sep|..];
      assert Split(s, sep) == [s[..i]] + rest;
  }

  /** No part holds the separator. */
  lemma {:induction false} SplitPartsFree(s: string, sep: string)
    requires sep != []
    ensures forall k :: 0 <= k < |Split(s, sep)| ==> !Contains(Split(s, sep)[k], sep)
    decreases |s|
  {
    match FindFrom(s, sep, 0)
    case None =>
    case Some(i) =>
      var rest := Split(s[i + |sep|..], sep);
      SplitPartsFree(s[i + |sep|..], sep);
      FindFromFirst(s, sep, 0);
      PrefixBeforeFirstOccurrence(s, sep, i);
      var parts := Split(s, sep);
      assert parts == [s[..i]] + rest;
      assert forall k :: 1 <= k < |parts| ==> parts[k] == rest[k - 1];
  }

  /** The text before the first occurrence of t holds no occurrence of t. */
  lemma PrefixBeforeFirstOccurrence(s: string, t: string, i: nat)
    requires t != [] && i <= |s|
    requires forall j :: 0 <= j < i ==> !OccursAt(s, t, j)
    ensures !Contains(s[..i], t)
  {
    var p := s[..i];
    match FindFrom(p, t, 0)
    case None =>
    case Some(j) =>
      assert p[j..j + |t|] == s[j..j + |t|];
      assert OccursAt(s, t, j);
      assert false;
  }

  /** If c starts sep and a holds no c, no occurrence of sep in a + sep + b starts inside a. */
  lemma NoOccurrenceInside(a: string, sep: string, b: string)
    requires sep != [] && sep[0] !in a
    ensures forall j :: 0 <= j < |a| ==> !OccursAt(a + sep + b, sep, j)
  {
    forall j | 0 <= j < |a| ensures !OccursAt(a + sep + b, sep, j) {
      assert (a + sep + b)[j] == a[j];
    }
  }

  /** Splitting at the first occurrence. */
  lemma {:induction false} SplitAtFirst(a: string, sep: string, b: string)
    requires sep != []
    requires forall j :: 0 <= j < |a| ==> !OccursAt(a + sep + b, sep, j)
    ensures Split(a + sep + b, sep) == [a] + Split(b, sep)
  {
    var s := a + sep + b;
    assert s[|a|..|a| + |sep|] == sep;
    assert OccursAt(s, sep, |a|);
    FindFromFirst(s, sep, 0);
    assert FindFrom(s, sep, 0) == Some(|a|);
    assert s[..|a|] == a;
    assert s[|a| + |sep|..] == b;
  }

  /** A string with no character c is not split by a separator that starts with c. */
  lemma SplitNoSeparator(s: string, sep: string)
    requires sep != [] && sep[0] !in s
    ensures Split(s, sep) == [s]
  {
  }

  function LowerChar(c: char): char {
    if 'A' <= c <= 'Z' then (c as int + 32) as char else c
  }

  function UpperChar(c: char): char {
    if 'a' <= c <= 'z' then (c as int - 32) as char else c
  }

  /** str.lower(), on the ASCII letters only. */
  function Lower(s: string): (r: string)
    ensures |r| == |s|
  {
    seq(|s|, i requires 0 <= i < |s| => LowerChar(s[i]))
  }

  /** str.upper(), on the ASCII letters only. */
  function Upper(s: string): (r: string)
    ensures |r| == |s|
  {
    seq(|s|, i requires 0 <= i < |s| => UpperChar(s[i]))
  }

  lemma LowerConcat(a: string, b: string)
    ensures Lower(a + b) == Lower(a) + Lower(b)
  {
  }

  lemma UpperConcat(a: string, b: string)
    ensures Upper(a + b) == Upper(a) + Upper(b)
  {
  }

  /** An occurrence of t in a + t + b. */
  lemma ContainsMiddle(a: string, t: string, b: string)
    ensures Contains(a + t + b, t)
  {
    var s := a + t + b;
    assert s[|a|..|a| + |t|] == t;
    assert OccursAt(s, t, |a|);
    FindFromFirst(s, t, 0);
  }

  /** Python's s.startswith(t). */
  predicate StartsWith(s: string, t: string) {
    OccursAt(s, t, 0)
  }

  /** A one-character string occurs in s exactly where that character does. */
  lemma ContainsChar(s: string, c: char)
    ensures Contains(s, [c]) <==> c in s
  {
    if c in s {
      var k :| 0 <= k < |s| && s[k] == c;
      assert s[k..k + 1] == [c];
      assert OccursAt(s, [c], k);
      FindFromFirst(s, [c], 0);
    } else {
      forall k | 0 <= k < |s| ensures !OccursAt(s, [c], k) {
        assert s[k..k + 1][0] == s[k];
      }
    }
  }

  /** A separator that starts with a character absent from a cannot occur across a's end: only inside b. */
  lemma NotContainsAfterPrefix(a: string, b: string, t: string)
    requires t != [] && t[0] !in a && !Contains(b, t)
    ensures !Contains(a + b, t)
  {
    var s := a + b;
    FindFromFirst(b, t, 0);
    if Contains(s, t) {
      var j := FindFrom(s, t, 0).value;
      OccursAtIndex(s, t, j);
      if j >= |a| {
        OccursAtRight(a, b, t, j);
      }
    }
  }

  /** An occurrence lying past a's end is an occurrence in b. */
  lemma OccursAtRight(a: string, b: string, t: string, j: nat)
    requires OccursAt(a + b, t, j) && |a| <= j
    ensures OccursAt(b, t, j - |a|)
  {
    var w := b[j - |a|..j - |a| + |t|];
    assert forall m :: 0 <= m < |t| ==> w[m] == (a + b)[j + m];
  }

  /** A string without the separator is one part. */
  lemma SplitWhole(s: string, sep: string)
    requires sep != [] && !Contains(s, sep)
    ensures Split(s, sep) == [s]
  {
  }

  /** A string holding the separator is cut into at least two parts. */
  lemma SplitCuts(s: string, sep: string)
    requires sep != [] && Contains(s, sep)
    ensures |Split(s, sep)| >= 2
  {
  }

  /** t + u occurs at i exactly when t occurs at i and u right after it. */
  lemma OccursAtConcat(s: string, t: string, u: string, i: nat)
    ensures OccursAt(s, t + u, i) <==> OccursAt(s, t, i) && OccursAt(s, u, i + |t|)
  {
    if i + |t| + |u| <= |s| {
      var w := s[i..i + |t| + |u|];
      assert w[..|t|] == s[i..i + |t|];
      assert w[|t|..] == s[i + |t|..i + |t| + |u|];
      if OccursAt(s, t, i) && OccursAt(s, u, i + |t|) {
        assert w == w[..|t|] + w[|t|..];
      }
      if OccursAt(s, t + u, i) {
        assert (t + u)[..|t|] == t && (t + u)[|t|..] == u;
      }
    }
  }

  /** An occurrence of t + u is an occurrence of t followed by one of u. */
  lemma OccursAtSplit(s: string, t: string, u: string, i: nat)
    requires OccursAt(s, t + u, i)
    ensures OccursAt(s, t, i) && OccursAt(s, u, i + |t|)
  {
    OccursAtConcat(s, t, u, i);
  }

  /** An occurrence of t followed by one of u is an occurrence of t + u. */
  lemma OccursAtJoin(s: string, t: string, u: string, i: nat)
    requires OccursAt(s, t, i) && OccursAt(s, u, i + |t|)
    ensures OccursAt(s, t + u, i)
  {
    OccursAtConcat(s, t, u, i);
  }

  /** Three occurrences side by side are one occurrence of the three joined. */
  lemma OccursAtJoin3(s: string, a: string, b: string, c: string, i: nat)
    requires OccursAt(s, a, i) && OccursAt(s, b, i + |a|) && OccursAt(s, c, i + |a| + |b|)
    ensures OccursAt(s, a + (b + c), i)
  {
    OccursAtJoin(s, b, c, i + |a|);
    OccursAtJoin(s, a, b + c, i);
  }

  /** An occurrence of three joined strings is three occurrences side by side. */
  lemma OccursAtSplit3(s: string, a: string, b: string, c: string, i: nat)
    requires OccursAt(s, a + (b + c), i)
    ensures OccursAt(s, a, i) && OccursAt(s, b, i + |a|) && OccursAt(s, c, i + |a| + |b|)
  {
    OccursAtSplit(s, a, b + c, i);
    OccursAtSplit(s, b, c, i + |a|);
  }

  /** Seven occurrences side by side are one occurrence of the seven joined. */
  lemma OccursAtJoin7(s: string, a: string, b: string, c: string, d: string, e: string, f: string, g: string, i: nat)
    requires OccursAt(s, a, i) && OccursAt(s, b, i + |a|) && OccursAt(s, c, i + |a| + |b|)
    requires OccursAt(s, d, i + |a| + |b| + |c|) && OccursAt(s, e, i + |a| + |b| + |c| + |d|)
    requires OccursAt(s, f, i + |a| + |b| + |c| + |d| + |e|) && OccursAt(s, g, i + |a| + |b| + |c| + |d| + |e| + |f|)
    ensures OccursAt(s, a + (b + (c + (d + (e + (f + g))))), i)
  {
    OccursAtJoin3(s, e, f, g, i + |a| + |b| + |c| + |d|);
    OccursAtJoin3(s, c, d, e + (f + g), i + |a| + |b|);
    OccursAtJoin3(s, a, b, c + (d + (e + (f + g))), i);
  }

  /** An occurrence of seven joined strings is seven occurrences side by side. */
  lemma OccursAtSplit7(s: string, a: string, b: string, c: string, d: string, e: string, f: string, g: string, i: nat)
    requires OccursAt(s, a + (b + (c + (d + (e + (f + g))))), i)
    ensures OccursAt(s, a, i) && OccursAt(s, b, i + |a|) && OccursAt(s, c, i + |a| + |b|)
    ensures OccursAt(s, d, i + |a| + |b| + |c|) && OccursAt(s, e, i + |a| + |b| + |c| + |d|)
    ensures OccursAt(s, f, i + |a| + |b| + |c| + |d| + |e|) && OccursAt(s, g, i + |a| + |b| + |c| + |d| + |e| + |f|)
  {
    OccursAtSplit3(s, a, b, c + (d + (e + (f + g))), i);
    OccursAtSplit3(s, c, d, e + (f + g), i + |a| + |b|);
    OccursAtSplit3(s, e, f, g, i + |a| + |b| + |c| + |d|);
  }

  /** The characters at i.. of an occurrence of t are t's. */
  lemma OccursAtIndex(s: string, t: string, i: nat)
    requires OccursAt(s, t, i)
    ensures forall m :: i <= m < i + |t| ==> s[m] == t[m - i]
  {
    forall m | i <= m < i + |t| ensures s[m] == t[m - i] {
      assert s[i..i + |t|][m - i] == s[m];
    }
  }

  /** Lowering commutes with slicing. */
  lemma LowerSlice(s: string, i: nat, j: nat)
    requires i <= j <= |s|
    ensures Lower(s)[i..j] == Lower(s[i..j])
  {
    var u, w := Lower(s)[i..j], Lower(s[i..j]);
    assert forall m :: 0 <= m < j - i ==> u[m] == w[m];
  }
}
