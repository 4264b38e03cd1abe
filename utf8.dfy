/** UTF-8 well-formedness, the check `std::str::from_utf8` makes before the
    backend reads a request as text. A byte sequence is accepted exactly when
    it is a concatenation of well-formed sequences as listed in Table 3-7 of
    the Unicode Standard (the same table as section 4 of RFC 3629): no
    overlong forms, no surrogates, nothing above U+10FFFF. */
module Utf8 {
  import opened Bytes

  predicate IsContinuation(b: Byte)
  {
    0x80 <= b <= 0xBF
  }

  /** Length of the well-formed sequence at the head of `s`, or 0 when the
      head of `s` is not one. */
  function CharWidth(s: seq<Byte>): (k: nat)
    ensures k <= 4 && k <= |s|
    ensures |s| > 0 && s[0] < 0x80 ==> k == 1
  {
    if |s| == 0 then 0
    else
      var b0 := s[0];
      if b0 < 0x80 then 1
      else if 0xC2 <= b0 <= 0xDF then
        if |s| >= 2 && IsContinuation(s[1]) then 2 else 0
      else if 0xE0 <= b0 <= 0xEF then
        var lo: Byte := if b0 == 0xE0 then 0xA0 else 0x80;
        var hi: Byte := if b0 == 0xED then 0x9F else 0xBF;
        if |s| >= 3 && lo <= s[1] <= hi && IsContinuation(s[2]) then 3 else 0
      else if 0xF0 <= b0 <= 0xF4 then
        var lo: Byte := if b0 == 0xF0 then 0x90 else 0x80;
        var hi: Byte := if b0 == 0xF4 then 0x8F else 0xBF;
        if |s| >= 4 && lo <= s[1] <= hi && IsContinuation(s[2]) && IsContinuation(s[3]) then 4 else 0
      else 0
  }

  /** Every byte after the first of a sequence is a continuation byte. */
  lemma ContinuationAfterLead(s: seq<Byte>, j: nat)
    requires 1 <= j < CharWidth(s)
    ensures IsContinuation(s[j])
  {
  }

  /** `from_utf8(s)` succeeds. */
  predicate Valid(s: seq<Byte>)
    decreases |s|
  {
    s == [] || (CharWidth(s) > 0 && Valid(s[CharWidth(s)..]))
  }

  /** A valid text never starts in the middle of a character. */
  lemma ValidStartsWithLead(s: seq<Byte>)
    requires Valid(s) && s != []
    ensures !IsContinuation(s[0])
  {
  }

  /** The width of the head sequence depends only on its own bytes. */
  lemma CharWidthPrefix(s: seq<Byte>, t: seq<Byte>)
    requires CharWidth(s) > 0
    requires |t| >= CharWidth(s) && t[..CharWidth(s)] == s[..CharWidth(s)]
    ensures CharWidth(t) == CharWidth(s)
  {
    var k := CharWidth(s);
    assert forall j :: 0 <= j < k ==> t[j] == s[..k][j];
  }

  /** Concatenating two valid texts gives a valid text. */
  lemma {:induction false} AppendValid(a: seq<Byte>, b: seq<Byte>)
    requires Valid(a) && Valid(b)
    ensures Valid(a + b)
    decreases |a|
  {
    if a == [] {
      assert a + b == b;
    } else {
      AppendValid(a[CharWidth(a)..], b);
      ValidHeadAppend(a, b);
    }
  }

  /** The first character of `a` stays the first character of `a + b`. */
  lemma ValidHeadAppend(a: seq<Byte>, b: seq<Byte>)
    requires CharWidth(a) > 0 && Valid(a[CharWidth(a)..] + b)
    ensures Valid(a + b)
  {
    var k := CharWidth(a);
    assert CharWidth(a + b) == k by {
      assert (a + b)[..k] == a[..k];
      CharWidthPrefix(a, a + b);
    }
    assert (a + b)[k..] == a[k..] + b;
  }

  predicate AllAscii(s: seq<Byte>)
  {
    forall i :: 0 <= i < |s| ==> s[i] < 0x80
  }

  /** Text made only of ASCII bytes is valid. */
  lemma {:induction false} AsciiValid(s: seq<Byte>)
    requires AllAscii(s)
    ensures Valid(s)
    decreases |s|
  {
    if s != [] {
      AsciiValid(s[1..]);
    }
  }

  /** ASCII bytes in front of a valid text keep it valid. */
  lemma {:induction false} AsciiPrefixValid(a: seq<Byte>, b: seq<Byte>)
    requires AllAscii(a)
    requires Valid(b)
    ensures Valid(a + b)
    decreases |a|
  {
    if a == [] {
      assert a + b == b;
    } else {
      assert (a + b)[1..] == a[1..] + b;
      AsciiPrefixValid(a[1..], b);
    }
  }

  /** A valid text cut after its first character and somewhere later: the
      piece before the cut is valid when the part of it after the first
      character is. */
  lemma ValidPrefixFromTail(s: seq<Byte>, i: nat)
    requires CharWidth(s) > 0 && CharWidth(s) <= i <= |s|
    requires Valid(s[CharWidth(s)..][..i - CharWidth(s)])
    ensures Valid(s[..i])
  {
    var k := CharWidth(s);
    var prefix := s[..i];
    assert CharWidth(prefix) == k by {
      assert prefix[..k] == s[..k];
      CharWidthPrefix(s, prefix);
    }
    assert prefix[k..] == s[k..][..i - k];
  }

  /** An ASCII byte inside valid text always starts a character, so cutting
      the text around it leaves two valid texts. This is why the pieces the
      line splitter returns are `&str`s again. */
  lemma {:induction false} SplitAtAscii(s: seq<Byte>, i: nat)
    requires Valid(s) && i < |s| && s[i] < 0x80
    ensures Valid(s[..i]) && Valid(s[i + 1..])
    decreases |s|
  {
    var k := CharWidth(s);
    if i < k {
      if i > 0 {
        ContinuationAfterLead(s, i);
      }
      assert i == 0;
      assert s[..0] == [];
    } else {
      var rest := s[k..];
      assert Valid(rest[..i - k]) && Valid(rest[i - k + 1..]) by {
        assert rest[i - k] == s[i];
        SplitAtAscii(rest, i - k);
      }
      assert rest[i - k + 1..] == s[i + 1..];
      ValidPrefixFromTail(s, i);
    }
  }
}
