/** The string operations the crawler relies on, over `seq<char>`:
    `str.strip()` and the whitespace it removes, `str.replace(c, '')` for a
    single character, the substring test of XPath `contains`, `posixpath.join`
    of two components, and the separator join that lays out a JSON stream. */
module Strings {

  /** The characters `str.strip()` removes: those whose Unicode bidirectional
      class is WS, B or S, or whose category is Zs. */
  predicate IsSpace(c: char) {
    var n := c as int;
    (0x09 <= n <= 0x0D) || (0x1C <= n <= 0x20) || n == 0x85 || n == 0xA0 ||
    n == 0x1680 || (0x2000 <= n <= 0x200A) || n == 0x2028 || n == 0x2029 ||
    n == 0x202F || n == 0x205F || n == 0x3000
  }

  /** Every character of `t` is whitespace. */
  predicate AllSpace(t: string) {
    forall k :: 0 <= k < |t| ==> IsSpace(t[k])
  }

  lemma AllSpaceConcat(a: string, b: string)
    requires AllSpace(a) && AllSpace(b)
    ensures AllSpace(a + b)
  {
    assert forall k :: 0 <= k < |a + b| ==> (a + b)[k] == if k < |a| then a[k] else b[k - |a|];
  }

  /** `s.strip()`: whitespace removed from both ends until neither end is
      whitespace. */
  function Strip(s: string): (r: string)
    ensures |r| <= |s|
    ensures r != [] ==> !IsSpace(r[0]) && !IsSpace(r[|r| - 1])
  {
    if |s| > 0 && IsSpace(s[0]) then Strip(s[1..])
    else if |s| > 0 && IsSpace(s[|s| - 1]) then Strip(s[..|s| - 1])
    else s
  }

  /** What `strip` removes is whitespace only: the result is a slice of `s`
      with nothing but whitespace before and after it. */
  lemma StripIsSlice(s: string)
    ensures exists i, j ::
      && 0 <= i <= j <= |s| && Strip(s) == s[i..j]
      && AllSpace(s[..i]) && AllSpace(s[j..])
  {
    var i, j := StripBounds(s);
  }

  lemma {:induction false} StripBounds(s: string) returns (i: nat, j: nat)
    ensures i <= j <= |s| && Strip(s) == s[i..j]
    ensures AllSpace(s[..i]) && AllSpace(s[j..])
  {
    if |s| > 0 && IsSpace(s[0]) {
      var i', j' := StripBounds(s[1..]);
      i, j := i' + 1, j' + 1;
      ShiftFront(s, i', j');
    } else if |s| > 0 && IsSpace(s[|s| - 1]) {
      i, j := StripBounds(s[..|s| - 1]);
      ShiftBack(s, i, j);
    } else {
      i, j := 0, |s|;
      assert s[..0] == [] && s[|s|..] == [];
    }
  }

  lemma ShiftFront(s: string, i: nat, j: nat)
    requires |s| > 0 && IsSpace(s[0]) && i <= j <= |s| - 1
    requires AllSpace(s[1..][..i]) && AllSpace(s[1..][j..])
    ensures s[1..][i..j] == s[i + 1..j + 1]
    ensures AllSpace(s[..i + 1]) && AllSpace(s[j + 1..])
  {
    assert s[..i + 1] == [s[0]] + s[1..][..i];
    AllSpaceConcat([s[0]], s[1..][..i]);
    assert s[j + 1..] == s[1..][j..];
  }

  lemma ShiftBack(s: string, i: nat, j: nat)
    requires |s| > 0 && IsSpace(s[|s| - 1]) && i <= j <= |s| - 1
    requires AllSpace(s[..|s| - 1][..i]) && AllSpace(s[..|s| - 1][j..])
    ensures s[..|s| - 1][i..j] == s[i..j]
    ensures AllSpace(s[..i]) && AllSpace(s[j..])
  {
    var t := s[..|s| - 1];
    assert s[..i] == t[..i];
    assert s[j..] == t[j..] + [s[|s| - 1]];
    AllSpaceConcat(t[j..], [s[|s| - 1]]);
  }

  /** `s.replace(c, '')`: every occurrence of `c` removed, the rest kept in order. */
  function Delete(s: string, c: char): (r: string)
    ensures |r| <= |s|
    ensures c !in r
  {
    if s == [] then []
    else (if s[0] == c then [] else [s[0]]) + Delete(s[1..], c)
  }

  /** Deleting `c` removes exactly the occurrences of `c`: every other
      character stays. */
  lemma {:induction false} DeleteMembers(s: string, c: char)
    ensures forall x :: x in Delete(s, c) <==> x in s && x != c
  {
    if s != [] {
      DeleteMembers(s[1..], c);
      assert forall x :: x in s <==> x == s[0] || x in s[1..];
    }
  }

  lemma {:induction false} DeleteAbsent(s: string, c: char)
    requires c !in s
    ensures Delete(s, c) == s
  {
    if s != [] {
      DeleteAbsent(s[1..], c);
    }
  }

  lemma {:induction false} DeleteAppend(a: string, b: string, c: char)
    ensures Delete(a + b, c) == Delete(a, c) + Delete(b, c)
  {
    if a == [] {
      assert a + b == b;
    } else {
      assert (a + b)[0] == a[0] && (a + b)[1..] == a[1..] + b;
      DeleteAppend(a[1..], b, c);
      var head := if a[0] == c then [] else [a[0]];
      assert Delete(a + b, c) == head + (Delete(a[1..], c) + Delete(b, c));
      assert head + (Delete(a[1..], c) + Delete(b, c)) == (head + Delete(a[1..], c)) + Delete(b, c);
    }
  }

  /** Deleting `c` leaves the end characters in place when they are not `c`. */
  lemma {:induction false} DeleteKeepsEnds(s: string, c: char)
    requires s != [] && s[0] != c && s[|s| - 1] != c
    ensures var r := Delete(s, c); r != [] && r[0] == s[0] && r[|r| - 1] == s[|s| - 1]
  {
    var n := |s|;
    assert s == s[..n - 1] + [s[n - 1]];
    DeleteAppend(s[..n - 1], [s[n - 1]], c);
    assert Delete([s[n - 1]], c) == [s[n - 1]];
  }

  /** `posixpath.join(dir, name)`: `name` alone when it is absolute, otherwise
      `name` after `dir` and a `/` (no `/` added when `dir` is empty or already
      ends in one). */
  function PathJoin(dir: string, name: string): (p: string)
    ensures |name| <= |p| && p[|p| - |name|..] == name
    ensures name != [] && name[0] == '/' ==> p == name
    ensures (name == [] || name[0] != '/') ==>
      exists sep :: (sep == "" || sep == "/") && p == dir + sep + name
  {
    if name != [] && name[0] == '/' then name
    else if dir == [] || dir[|dir| - 1] == '/' then
      assert dir + "" + name == dir + name;
      dir + name
    else dir + "/" + name
  }

  /** XPath 1.0 `contains(hay, needle)`: `needle` occurs in `hay` as a contiguous slice. */
  predicate Contains(hay: string, needle: string) {
    exists i :: 0 <= i <= |hay| - |needle| && OccursAt(hay, needle, i)
  }

  predicate OccursAt(hay: string, needle: string, i: nat) {
    i + |needle| <= |hay| && hay[i..i + |needle|] == needle
  }

  /** `parts` separated by `sep`, written so that one more part extends it at
      the end. */
  function Join(parts: seq<string>, sep: string): (r: string)
    decreases |parts|
  {
    if |parts| == 0 then []
    else if |parts| == 1 then parts[0]
    else Join(parts[..|parts| - 1], sep) + sep + parts[|parts| - 1]
  }

  lemma {:induction false} JoinNonEmpty(parts: seq<string>, sep: string)
    requires parts != []
    requires forall i :: 0 <= i < |parts| ==> parts[i] != []
    ensures |Join(parts, sep)| >= |parts[0]| > 0
  {
    if |parts| > 1 {
      JoinNonEmpty(parts[..|parts| - 1], sep);
    }
  }
}
