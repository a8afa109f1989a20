/** C strings and what several components share. */
module CString {

  datatype Option<+T> = None | Some(value: T)

  /** No element occurs twice. */
  ghost predicate Distinct<E>(s: seq<E>)
  {
    forall i, j | 0 <= i < j < |s| :: s[i] != s[j]
  }

  /** No element is in both. */
  ghost predicate Apart<E>(a: seq<E>, b: seq<E>)
  {
    forall i | 0 <= i < |a| :: a[i] !in b
  }

  const UINT32 := 0x1_0000_0000

  /** The sequence without position i. */
  function Cut<E>(s: seq<E>, i: nat): seq<E>
    requires i < |s|
  {
    s[..i] + s[i + 1..]
  }

  lemma CutIndex<E>(s: seq<E>, i: nat)
    requires i < |s|
    ensures |Cut(s, i)| == |s| - 1 && forall j | 0 <= j < |s| - 1 :: Cut(s, i)[j] == s[if j < i then j else j + 1]
  {
  }

  lemma CutEntries<E>(s: seq<E>, i: nat)
    requires Distinct(s) && i < |s|
    ensures |Cut(s, i)| == |s| - 1 && Distinct(Cut(s, i))
    ensures forall j | 0 <= j < |s| :: s[j] in Cut(s, i) <==> s[j] != s[i]
    ensures forall k | 0 <= k < |s| - 1 :: Cut(s, i)[k] in s && Cut(s, i)[k] != s[i]
  {
    var r := Cut(s, i);
    assert forall k | 0 <= k < |r| :: r[k] == s[if k < i then k else k + 1];
    forall j | 0 <= j < |s| && s[j] != s[i]
      ensures s[j] in r
    {
      assert r[if j < i then j else j - 1] == s[j];
    }
  }

  /** The sequence without its first occurrence of x. */
  function Without<E(==)>(s: seq<E>, x: E): (r: seq<E>)
    ensures |r| == |s| - (if x in s then 1 else 0)
  {
    if s == [] then [] else if s[0] == x then s[1..] else [s[0]] + Without(s[1..], x)
  }

  lemma {:induction false} WithoutAt<E>(s: seq<E>, i: nat)
    requires i < |s| && Distinct(s)
    ensures Without(s, s[i]) == Cut(s, i)
  {
    if i == 0 {
    } else {
      WithoutAt(s[1..], i - 1);
      var t := s[1..];
      assert [s[0]] + (t[..i - 1] + t[i..]) == s[..i] + s[i + 1..];
    }
  }

  lemma {:induction false} WithoutAbsent<E>(s: seq<E>, x: E)
    requires x !in s
    ensures Without(s, x) == s
  {
    if s != [] {
      WithoutAbsent(s[1..], x);
    }
  }

  lemma WithoutEntries<E>(s: seq<E>, x: E)
    requires Distinct(s)
    ensures Distinct(Without(s, x))
    ensures forall i | 0 <= i < |s| :: s[i] in Without(s, x) <==> s[i] != x
    ensures forall k | 0 <= k < |Without(s, x)| :: Without(s, x)[k] in s && Without(s, x)[k] != x
  {
    if x in s {
      var i :| 0 <= i < |s| && s[i] == x;
      WithoutAt(s, i);
      CutEntries(s, i);
    } else {
      WithoutAbsent(s, x);
    }
  }

  lemma Associate<E>(a: seq<E>, b: seq<E>, c: seq<E>)
    ensures a + (b + c) == (a + b) + c
  {
  }

  predicate IsHexDigit(c: char)
  {
    '0' <= c <= '9' || 'A' <= c <= 'F' || 'a' <= c <= 'f'
  }

  /** A byte of a C string, as the character with that code. */
  type byte = c: char | c as int < 256 witness ' '

  /** snprintf of a string into a field of len bytes. */
  function Truncate<T>(s: seq<T>, len: nat): (r: seq<T>)
    requires len > 0
    ensures r <= s && |r| < len
    ensures r == s || |r| == len - 1
    ensures |s| < len ==> r == s
  {
    if |s| < len then s else s[..len - 1]
  }
}
