/** Small value types and string helpers shared by the loader, the query
    service and the dashboard models. The string helpers follow Python's
    str.strip, str.lower and the `in` substring test, on `seq<char>`. */
module Common {

  datatype Option<T> = None | Some(value: T)

  /** Python's str.isspace() for a single character (the characters Python's
      str.strip() removes when called without arguments). */
  predicate IsSpace(c: char)
  {
    c == ' ' || c == '\t' || c == '\n' || c == '\r' || c == '\U{000B}' || c == '\U{000C}'
    || ('\U{001C}' <= c <= '\U{001F}') || c == '\U{0085}' || c == '\U{00A0}' || c == '\U{1680}'
    || ('\U{2000}' <= c <= '\U{200A}') || c == '\U{2028}' || c == '\U{2029}' || c == '\U{202F}'
    || c == '\U{205F}' || c == '\U{3000}'
  }

  predicate AllSpace(s: string)
  {
    forall i :: 0 <= i < |s| ==> IsSpace(s[i])
  }

  /** Number of whitespace characters at the front of `s`. */
  function LeadingSpaces(s: string): (n: nat)
    ensures n <= |s|
    ensures AllSpace(s[..n])
    ensures n < |s| ==> !IsSpace(s[n])
  {
    if |s| == 0 || !IsSpace(s[0]) then 0
    else
      var k := LeadingSpaces(s[1..]);
      assert s[1..][..k] == s[1..k + 1];
      k + 1
  }

  /** Number of whitespace characters at the end of `s`. */
  function TrailingSpaces(s: string): (n: nat)
    ensures n <= |s|
    ensures AllSpace(s[|s| - n..])
    ensures n < |s| ==> !IsSpace(s[|s| - 1 - n])
  {
    if |s| == 0 || !IsSpace(s[|s| - 1]) then 0
    else
      var k := TrailingSpaces(s[..|s| - 1]);
      assert s[..|s| - 1][|s| - 1 - k..] + [s[|s| - 1]] == s[|s| - 1 - k..];
      k + 1
  }

  /** Python's str.strip(): `s` without its leading and trailing whitespace.
      The result is the slice of `s` that starts after the leading whitespace
      and is followed only by whitespace; it neither starts nor ends with
      whitespace. */
  function Strip(s: string): (r: string)
    ensures |r| <= |s|
    ensures r == [] || (!IsSpace(r[0]) && !IsSpace(r[|r| - 1]))
    ensures r == [] <==> AllSpace(s)
    ensures var i := LeadingSpaces(s); i + |r| <= |s| && s[i..i + |r|] == r && AllSpace(s[..i]) && AllSpace(s[i + |r|..])
  {
    var i := LeadingSpaces(s);
    var t := s[i..];
    var n := |t| - TrailingSpaces(t);
    assert t[..n] == s[i..i + n];
    assert t[n..] == s[i + n..];
    t[..n]
  }

  /** ASCII lower-casing of one character (Python's str.lower() restricted to
      ASCII letters). */
  function LowerChar(c: char): (r: char)
    ensures 'A' <= c <= 'Z' ==> 'a' <= r <= 'z' && r as int - c as int == 'a' as int - 'A' as int
    ensures !('A' <= c <= 'Z') ==> r == c
  {
    if 'A' <= c <= 'Z' then (c as int - 'A' as int + 'a' as int) as char else c
  }

  function Lower(s: string): (r: string)
    ensures |r| == |s|
    ensures forall i :: 0 <= i < |s| ==> r[i] == LowerChar(s[i])
  {
    if |s| == 0 then [] else [LowerChar(s[0])] + Lower(s[1..])
  }

  /** Python's `p in s` for strings: `p` occurs as a contiguous slice of `s`. */
  predicate Contains(s: string, p: string)
  {
    exists i :: 0 <= i <= |s| - |p| && OccursAt(s, p, i)
  }

  predicate OccursAt(s: string, p: string, i: nat)
    requires i + |p| <= |s|
  {
    s[i..i + |p|] == p
  }

  /** `s.endswith(t)`. */
  predicate EndsWith(s: string, t: string)
  {
    |t| <= |s| && s[|s| - |t|..] == t
  }

  /** Appending after a prefix keeps it; appending before a suffix keeps it. */
  lemma AppendKeepsEnds(a: string, b: string, t: string)
    requires EndsWith(b, t)
    ensures a <= a + b
    ensures EndsWith(a + b, t)
  {
    assert (a + b)[|a + b| - |t|..] == b[|b| - |t|..];
  }

  /** The elements of `s` in order of first occurrence, each once
      (pandas Series.unique() and DataFrame.drop_duplicates()). */
  function Distinct<T(==)>(s: seq<T>): (r: seq<T>)
    ensures |r| <= |s|
    ensures forall k :: 0 <= k < |r| ==> r[k] in s
  {
    if |s| == 0 then []
    else
      var d := Distinct(s[..|s| - 1]);
      if s[|s| - 1] in d then d else d + [s[|s| - 1]]
  }

  /** `x` occurs in `s` before the first occurrence of `y`. */
  predicate FirstBefore<T(==)>(s: seq<T>, x: T, y: T)
  {
    exists p :: 0 <= p < |s| && s[p] == x && y !in s[..p + 1]
  }

  /** Distinct lists the values in order of first appearance: each listed
      value first occurs in `s` before any later listed value does. */
  lemma {:induction false} DistinctFirstAppearance<T>(s: seq<T>)
    ensures forall i, j :: 0 <= i < j < |Distinct(s)| ==> FirstBefore(s, Distinct(s)[i], Distinct(s)[j])
  {
    if |s| > 0 {
      var init := s[..|s| - 1];
      DistinctFirstAppearance(init);
      DistinctIsSetOfValues(init);
      var d := Distinct(init);
      forall i, j | 0 <= i < j < |Distinct(s)| ensures FirstBefore(s, Distinct(s)[i], Distinct(s)[j]) {
        var x, y := Distinct(s)[i], Distinct(s)[j];
        assert x == d[i];
        if j < |d| {
          assert FirstBefore(init, d[i], d[j]);
          var p :| 0 <= p < |init| && init[p] == x && y !in init[..p + 1];
          assert s[..p + 1] == init[..p + 1];
        } else {
          assert y == s[|s| - 1] && y !in d;
          assert x in init;
          var p :| 0 <= p < |init| && init[p] == x;
          assert s[..p + 1] == init[..p + 1];
          assert forall z :: z in init[..p + 1] ==> z in init;
        }
      }
    }
  }

  /** Three different values are kept as they are, in their order. */
  lemma DistinctOfThree<T>(p: T, q: T, r: T)
    requires p != q && p != r && q != r
    ensures Distinct([p, q, r]) == [p, q, r]
  {
    assert [p, q, r][..2] == [p, q] && [p, q][..1] == [p];
    assert Distinct([p]) == [p];
    assert Distinct([p, q]) == [p, q];
  }

  predicate NoDuplicates<T(==)>(s: seq<T>)
  {
    forall i, j :: 0 <= i < j < |s| ==> s[i] != s[j]
  }

  /** Distinct keeps every value that occurs, keeps no other, and lists each
      exactly once. */
  lemma {:induction false} DistinctIsSetOfValues<T>(s: seq<T>)
    ensures forall x :: x in Distinct(s) <==> x in s
    ensures NoDuplicates(Distinct(s))
  {
    if |s| > 0 {
      var init := s[..|s| - 1];
      DistinctIsSetOfValues(init);
      assert s == init + [s[|s| - 1]];
    }
  }

  /** Number of occurrences of character `c` in `s`. */
  function CountChar(s: string, c: char): (n: nat)
    ensures n <= |s|
    ensures n == 0 <==> c !in s
  {
    if |s| == 0 then 0 else (if s[0] == c then 1 else 0) + CountChar(s[1..], c)
  }

  lemma {:induction false} CountCharAppend(a: string, b: string, c: char)
    ensures CountChar(a + b, c) == CountChar(a, c) + CountChar(b, c)
  {
    if |a| > 0 {
      assert (a + b)[1..] == a[1..] + b;
      CountCharAppend(a[1..], b, c);
    } else {
      assert a + b == b;
    }
  }
}
