/** UTF-8 text as bytes: well-formedness and character boundaries. */
module Utf8 {
  import opened Basics

  predicate IsContinuation(b: Byte) {
    0x80 <= b < 0xc0
  }

  /** Length announced by a lead byte, zero if the byte cannot lead a character. */
  function LeadLength(b: Byte): nat {
    if b < 0x80 then 1 else if 0xc2 <= b < 0xe0 then 2 else if 0xe0 <= b < 0xf0 then 3 else if 0xf0 <= b < 0xf5 then 4 else 0
  }

  /** The second-byte ranges that exclude overlong forms, surrogates and values past U+10FFFF. */
  predicate SecondByteFits(lead: Byte, second: Byte) {
    && IsContinuation(second)
    && (lead == 0xe0 ==> second >= 0xa0) && (lead == 0xed ==> second < 0xa0)
    && (lead == 0xf0 ==> second >= 0x90) && (lead == 0xf4 ==> second < 0x90)
  }

  /** `text` starts with one well-formed character. */
  predicate LeadsCharacter(text: seq<Byte>) {
    text != [] &&
    var n := LeadLength(text[0]);
    && 0 < n <= |text|
    && (n > 1 ==> SecondByteFits(text[0], text[1]))
    && (forall i :: 2 <= i < n ==> IsContinuation(text[i]))
  }

  predicate Valid(text: seq<Byte>) {
    text == [] || (LeadsCharacter(text) && Valid(text[LeadLength(text[0])..]))
  }

  /** `str::is_char_boundary`. */
  predicate IsBoundary(text: seq<Byte>, i: int) {
    i == 0 || i == |text| || (0 < i < |text| && !IsContinuation(text[i]))
  }

  lemma {:induction false} SplitAtBoundary(text: seq<Byte>, i: nat)
    requires Valid(text) && i <= |text| && IsBoundary(text, i)
    ensures Valid(text[..i]) && Valid(text[i..])
  {
    if i == 0 {
      assert text[..0] == [] && text[0..] == text;
    } else if i == |text| {
      assert text[..i] == text && text[i..] == [];
    } else {
      var n := LeadLength(text[0]);
      assert n <= i;
      SplitAtBoundary(text[n..], i - n);
      assert text[n..][..i - n] == text[..i][n..];
      assert text[n..][i - n..] == text[i..];
    }
  }

  lemma {:induction false} ConcatValid(front: seq<Byte>, back: seq<Byte>)
    requires Valid(front) && Valid(back)
    ensures Valid(front + back)
  {
    if front == [] {
      assert front + back == back;
    } else {
      var n := LeadLength(front[0]);
      ConcatValid(front[n..], back);
      assert (front + back)[n..] == front[n..] + back;
    }
  }

  /** A character boundary lies at most three bytes before, and at most three bytes after, any offset. */
  lemma {:induction false} BoundaryNearby(text: seq<Byte>, i: nat) returns (before: nat, after: nat)
    requires Valid(text) && i <= |text|
    ensures before <= i <= after <= |text| && i - before <= 3 && after - i <= 3
    ensures IsBoundary(text, before) && IsBoundary(text, after)
  {
    if IsBoundary(text, i) {
      return i, i;
    }
    var n := LeadLength(text[0]);
    if i < n {
      CharacterEndsAtBoundary(text);
      return 0, n;
    }
    before, after := BoundaryNearby(text[n..], i - n);
    CharacterEndsAtBoundary(text);
    BoundaryOfSuffix(text, n, before);
    BoundaryOfSuffix(text, n, after);
    before, after := before + n, after + n;
  }

  lemma {:induction false} CharacterEndsAtBoundary(text: seq<Byte>)
    requires Valid(text) && text != []
    ensures IsBoundary(text, LeadLength(text[0]))
  {
    var n := LeadLength(text[0]);
    if n < |text| {
      assert LeadsCharacter(text[n..]) && text[n..][0] == text[n];
    }
  }

  lemma {:induction false} BoundaryOfSuffix(text: seq<Byte>, n: nat, i: nat)
    requires n <= |text| && IsBoundary(text, n) && i <= |text| - n && IsBoundary(text[n..], i)
    ensures IsBoundary(text, n + i)
  {
    if 0 < i < |text| - n {
      assert text[n..][i] == text[n + i];
    }
  }

  lemma {:induction false} BoundaryInSlice(text: seq<Byte>, start: nat, end: nat, i: nat)
    requires start <= i <= end <= |text| && IsBoundary(text, i)
    ensures IsBoundary(text[start..end], i - start)
  {
  }

  lemma {:induction false} SliceValid(text: seq<Byte>, start: nat, end: nat)
    requires Valid(text) && start <= end <= |text| && IsBoundary(text, start) && IsBoundary(text, end)
    ensures Valid(text[start..end])
  {
    SplitAtBoundary(text, end);
    BoundaryInSlice(text, 0, end, start);
    assert text[0..end] == text[..end];
    SplitAtBoundary(text[..end], start);
    assert text[..end][start..] == text[start..end];
  }
}
