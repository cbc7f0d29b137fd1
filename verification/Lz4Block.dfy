/** LZ4 blocks: an abstract list of sequences, its serialization and expansion, and the decoder. */
module Lz4Block {
  import opened Basics

  datatype Sequence = Sequence(literals: seq<Byte>, offset: nat, matchLength: nat)

  /** How a block may end: after a match, or with a token whose literals run to the end of the
      payload. The decoder ignores the low nibble of that token and accepts fewer literals than
      the token declares. */
  datatype Tail = NoTail | Tail(literals: seq<Byte>, declared: nat, nibble: nat)

  datatype Block = Block(sequences: seq<Sequence>, tail: Tail)

  datatype DecodeError = IndexOutOfRange | InvalidMatchOffset | WrongSize(actual: nat)
  datatype Result<+T> = Ok(value: T) | Err(error: DecodeError)

  // ---------------------------------------------------------------- Meaning of a block

  ghost predicate ValidSequence(s: Sequence, produced: nat) {
    1 <= s.offset <= 65535 && s.offset <= produced + |s.literals| && s.matchLength >= 4
  }

  /** Appends `n` bytes that continue the last `offset` bytes of `out` periodically. */
  function Repeat(out: seq<Byte>, offset: nat, n: nat): (r: seq<Byte>)
    requires 1 <= offset <= |out|
    ensures |r| == |out| + n
  {
    out + seq(n, k requires 0 <= k < n => out[|out| - offset + k % offset])
  }

  ghost predicate ValidSequences(ss: seq<Sequence>, produced: nat) {
    ss == [] || (ValidSequence(ss[0], produced) && ValidSequences(ss[1..], produced + |ss[0].literals| + ss[0].matchLength))
  }

  ghost function Expand(ss: seq<Sequence>, out: seq<Byte>): seq<Byte>
    requires ValidSequences(ss, |out|)
    decreases |ss|
  {
    if ss == [] then out else Expand(ss[1..], Repeat(out + ss[0].literals, ss[0].offset, ss[0].matchLength))
  }

  ghost predicate ValidTail(t: Tail) {
    t.Tail? ==> |t.literals| <= t.declared && t.nibble < 16
  }

  ghost predicate Valid(b: Block) {
    ValidSequences(b.sequences, 0) && ValidTail(b.tail)
  }

  ghost function WithTail(out: seq<Byte>, t: Tail): seq<Byte> {
    if t.NoTail? then out else out + t.literals
  }

  ghost function Expansion(b: Block): seq<Byte>
    requires Valid(b)
  {
    WithTail(Expand(b.sequences, []), b.tail)
  }

  // ---------------------------------------------------------------- Serialization

  function Nibble(n: nat): (r: nat)
    ensures r < 16
  {
    if n < 15 then n else 15
  }

  function Extension(n: nat): seq<Byte> {
    if n < 255 then [n] else [255] + Extension(n - 255)
  }

  function LengthExtension(n: nat): seq<Byte> {
    if n < 15 then [] else Extension(n - 15)
  }

  function Token(high: nat, low: nat): Byte
    requires high < 16 && low < 16
  {
    high * 16 + low
  }

  /** A token, the extension of its literal length, and what follows. */
  function Tokened(high: nat, low: nat, body: seq<Byte>): seq<Byte>
    requires low < 16
  {
    [Token(Nibble(high), low)] + (LengthExtension(high) + body)
  }

  function SerializeMatch(s: Sequence): seq<Byte>
    requires s.offset <= 65535 && s.matchLength >= 4
  {
    [s.offset % 256, s.offset / 256] + LengthExtension(s.matchLength - 4)
  }

  function SerializeSequence(s: Sequence): seq<Byte>
    requires s.offset <= 65535 && s.matchLength >= 4
  {
    Tokened(|s.literals|, Nibble(s.matchLength - 4), s.literals + SerializeMatch(s))
  }

  ghost function SerializeSequences(ss: seq<Sequence>, produced: nat): seq<Byte>
    requires ValidSequences(ss, produced)
    decreases |ss|
  {
    if ss == [] then [] else
      SerializeSequence(ss[0]) + SerializeSequences(ss[1..], produced + |ss[0].literals| + ss[0].matchLength)
  }

  function SerializeTail(t: Tail): seq<Byte>
    requires t.Tail? ==> t.nibble < 16
  {
    if t.NoTail? then [] else Tokened(t.declared, t.nibble, t.literals)
  }

  ghost function Serialize(b: Block): seq<Byte>
    requires Valid(b)
  {
    SerializeSequences(b.sequences, 0) + SerializeTail(b.tail)
  }

  // ---------------------------------------------------------------- The decoder as a function

  function ReadExtension(rest: seq<Byte>, length: nat): (r: Result<(nat, seq<Byte>)>)
    ensures r.Ok? ==> |r.value.1| < |rest|
  {
    if rest == [] then Err(IndexOutOfRange)
    else if rest[0] == 255 then ReadExtension(rest[1..], length + 255)
    else Ok((length + rest[0], rest[1..]))
  }

  function ReadLength(nibble: nat, rest: seq<Byte>): (r: Result<(nat, seq<Byte>)>)
    ensures r.Ok? ==> |r.value.1| <= |rest|
  {
    if nibble == 15 then ReadExtension(rest, 15) else Ok((nibble, rest))
  }

  function LittleEndian(low: nat, high: nat): nat {
    low + high * 256
  }

  datatype Progress = More(out: seq<Byte>, rest: seq<Byte>) | Finished(out: seq<Byte>) | Failed(error: DecodeError)

  function ReadMatch(low: nat, out: seq<Byte>, rest: seq<Byte>): (p: Progress)
    ensures p.More? ==> |p.rest| < |rest|
  {
    if |rest| < 2 then Failed(IndexOutOfRange) else
      var offset := LittleEndian(rest[0], rest[1]);
      match ReadLength(low, rest[2..])
      case Err(e) => Failed(e)
      case Ok((length, rest')) =>
        if offset > |out| then Failed(InvalidMatchOffset)
        else if offset == 0 then Failed(IndexOutOfRange)
        else More(Repeat(out, offset, length + 4), rest')
  }

  function ReadSequence(rest: seq<Byte>, out: seq<Byte>): (p: Progress)
    requires rest != []
    ensures p.More? ==> |p.rest| < |rest|
  {
    match ReadLength(rest[0] / 16, rest[1..])
    case Err(e) => Failed(e)
    case Ok((length, rest')) =>
      if length >= |rest'| then Finished(out + rest')
      else ReadMatch(rest[0] % 16, out + rest'[..length], rest'[length..])
  }

  function DecodeFrom(rest: seq<Byte>, out: seq<Byte>): Result<seq<Byte>>
    decreases |rest|
  {
    if rest == [] then Ok(out) else
      match ReadSequence(rest, out)
      case Failed(e) => Err(e)
      case Finished(out') => Ok(out')
      case More(out', rest') => DecodeFrom(rest', out')
  }

  function Decode(payload: seq<Byte>, decodedSize: nat): Result<seq<Byte>> {
    match DecodeFrom(payload, [])
    case Err(e) => Err(e)
    case Ok(out) => if |out| == decodedSize then Ok(out) else Err(WrongSize(|out|))
  }

  // ---------------------------------------------------------------- Decoding inverts serialization

  lemma {:induction false} ExtensionReadsBack(n: nat, rest: seq<Byte>, length: nat)
    ensures ReadExtension(Extension(n) + rest, length) == Ok((length + n, rest))
  {
    if n < 255 {
      assert ([n] + rest)[1..] == rest;
    } else {
      ExtensionReadsBack(n - 255, rest, length + 255);
      assert (Extension(n) + rest)[1..] == Extension(n - 255) + rest;
    }
  }

  lemma {:induction false} LengthReadsBack(n: nat, rest: seq<Byte>)
    ensures ReadLength(Nibble(n), LengthExtension(n) + rest) == Ok((n, rest))
  {
    if n < 15 {
      assert LengthExtension(n) + rest == rest;
    } else {
      ExtensionReadsBack(n - 15, rest, 15);
    }
  }

  lemma {:induction false} TokenedReadsBack(high: nat, low: nat, body: seq<Byte>)
    requires low < 16
    ensures
      var wire := Tokened(high, low, body);
      && wire != [] && wire[0] % 16 == low
      && ReadLength(wire[0] / 16, wire[1..]) == Ok((high, body))
  {
    LengthReadsBack(high, body);
    assert Tokened(high, low, body)[1..] == LengthExtension(high) + body;
  }

  lemma {:induction false} MatchReadsBack(s: Sequence, out: seq<Byte>, rest: seq<Byte>)
    requires 1 <= s.offset <= 65535 && s.offset <= |out| && s.matchLength >= 4
    ensures ReadMatch(Nibble(s.matchLength - 4), out, SerializeMatch(s) + rest) == More(Repeat(out, s.offset, s.matchLength), rest)
  {
    assert (SerializeMatch(s) + rest)[2..] == LengthExtension(s.matchLength - 4) + rest;
    LengthReadsBack(s.matchLength - 4, rest);
  }

  lemma {:induction false} SequenceReadsBack(s: Sequence, out: seq<Byte>, rest: seq<Byte>)
    requires ValidSequence(s, |out|)
    ensures ReadSequence(SerializeSequence(s) + rest, out) == More(Repeat(out + s.literals, s.offset, s.matchLength), rest)
  {
    var tail := SerializeMatch(s) + rest;
    var low := Nibble(s.matchLength - 4);
    assert SerializeSequence(s) + rest == Tokened(|s.literals|, low, s.literals + tail);
    TokenedReadsBack(|s.literals|, low, s.literals + tail);
    assert (s.literals + tail)[..|s.literals|] == s.literals;
    assert (s.literals + tail)[|s.literals|..] == tail;
    MatchReadsBack(s, out + s.literals, rest);
  }

  lemma {:induction false} BlockReadsBack(ss: seq<Sequence>, tail: Tail, out: seq<Byte>)
    requires ValidSequences(ss, |out|) && ValidTail(tail)
    ensures DecodeFrom(SerializeSequences(ss, |out|) + SerializeTail(tail), out) == Ok(WithTail(Expand(ss, out), tail))
    decreases |ss|
  {
    if ss != [] {
      var out' := Repeat(out + ss[0].literals, ss[0].offset, ss[0].matchLength);
      SequenceReadsBack(ss[0], out, SerializeSequences(ss[1..], |out'|) + SerializeTail(tail));
      SerializationSplits(ss, tail, |out|);
      BlockReadsBack(ss[1..], tail, out');
    } else {
      TailReadsBack(tail, out);
      assert SerializeSequences(ss, |out|) + SerializeTail(tail) == SerializeTail(tail);
    }
  }

  lemma {:induction false} SerializationSplits(ss: seq<Sequence>, tail: Tail, produced: nat)
    requires ss != [] && ValidSequences(ss, produced) && ValidTail(tail)
    ensures SerializeSequences(ss, produced) + SerializeTail(tail) == SerializeSequence(ss[0])
            + (SerializeSequences(ss[1..], produced + |ss[0].literals| + ss[0].matchLength) + SerializeTail(tail))
  {
  }

  lemma {:induction false} TailReadsBack(tail: Tail, out: seq<Byte>)
    requires ValidTail(tail)
    ensures DecodeFrom(SerializeTail(tail), out) == Ok(WithTail(out, tail))
  {
    if tail.Tail? {
      TokenedReadsBack(tail.declared, tail.nibble, tail.literals);
    }
  }

  /** Round trip: decoding the serialization of any valid block yields exactly its expansion. */
  lemma {:induction false} DecodeInvertsSerialize(b: Block)
    requires Valid(b)
    ensures Decode(Serialize(b), |Expansion(b)|) == Ok(Expansion(b))
  {
    BlockReadsBack(b.sequences, b.tail, []);
  }

  // ---------------------------------------------------------------- Only serialized blocks decode

  lemma {:induction false} ExtensionIsCanonical(rest: seq<Byte>, length: nat)
    requires ReadExtension(rest, length).Ok?
    ensures
      var (n, rest') := ReadExtension(rest, length).value;
      n >= length && rest == Extension(n - length) + rest'
  {
    if rest[0] == 255 {
      ExtensionIsCanonical(rest[1..], length + 255);
      var (n, rest') := ReadExtension(rest, length).value;
      assert Extension(n - length) == [255] + Extension(n - length - 255);
      assert rest == [255] + rest[1..];
    }
  }

  lemma {:induction false} LengthIsCanonical(nibble: nat, rest: seq<Byte>)
    requires nibble < 16 && ReadLength(nibble, rest).Ok?
    ensures
      var (n, rest') := ReadLength(nibble, rest).value;
      nibble == Nibble(n) && rest == LengthExtension(n) + rest'
  {
    if nibble == 15 {
      ExtensionIsCanonical(rest, 15);
    }
  }

  lemma {:induction false} TokenIsCanonical(rest: seq<Byte>)
    requires rest != [] && ReadLength(rest[0] / 16, rest[1..]).Ok?
    ensures
      var (n, body) := ReadLength(rest[0] / 16, rest[1..]).value;
      rest == Tokened(n, rest[0] % 16, body)
  {
    LengthIsCanonical(rest[0] / 16, rest[1..]);
    assert rest == [rest[0]] + rest[1..];
  }

  lemma {:induction false} MatchIsCanonical(low: nat, out: seq<Byte>, rest: seq<Byte>) returns (offset: nat, n: nat)
    requires low < 16 && ReadMatch(low, out, rest).More?
    ensures 1 <= offset <= 65535 && offset <= |out| && n >= 4 && low == Nibble(n - 4)
    ensures
      var p := ReadMatch(low, out, rest);
      rest == SerializeMatch(Sequence([], offset, n)) + p.rest && p.out == Repeat(out, offset, n)
  {
    LengthIsCanonical(low, rest[2..]);
    offset, n := LittleEndian(rest[0], rest[1]), ReadLength(low, rest[2..]).value.0 + 4;
    assert offset % 256 == rest[0] && offset / 256 == rest[1];
    assert rest == [rest[0], rest[1]] + rest[2..];
  }

  lemma {:induction false} TokenedSplits(high: nat, low: nat, body: seq<Byte>, rest: seq<Byte>)
    requires low < 16
    ensures Tokened(high, low, body + rest) == Tokened(high, low, body) + rest
  {
  }

  lemma {:induction false} SequenceIsCanonical(rest: seq<Byte>, out: seq<Byte>) returns (s: Sequence)
    requires rest != [] && ReadSequence(rest, out).More?
    ensures ValidSequence(s, |out|)
    ensures
      var p := ReadSequence(rest, out);
      rest == SerializeSequence(s) + p.rest && p.out == Repeat(out + s.literals, s.offset, s.matchLength)
  {
    TokenIsCanonical(rest);
    var (n, body) := ReadLength(rest[0] / 16, rest[1..]).value;
    var literals, low := body[..n], rest[0] % 16;
    var offset, length := MatchIsCanonical(low, out + literals, body[n..]);
    s := Sequence(literals, offset, length);
    var rest' := ReadMatch(low, out + literals, body[n..]).rest;
    SequenceReassembles(s, body, rest');
  }

  lemma {:induction false} SequenceReassembles(s: Sequence, body: seq<Byte>, rest: seq<Byte>)
    requires s.offset <= 65535 && s.matchLength >= 4 && |s.literals| <= |body|
    requires body[..|s.literals|] == s.literals && body[|s.literals|..] == SerializeMatch(Sequence([], s.offset, s.matchLength)) + rest
    ensures Tokened(|s.literals|, Nibble(s.matchLength - 4), body) == SerializeSequence(s) + rest
  {
    assert body == body[..|s.literals|] + body[|s.literals|..];
    assert body == (s.literals + SerializeMatch(s)) + rest;
    TokenedSplits(|s.literals|, Nibble(s.matchLength - 4), s.literals + SerializeMatch(s), rest);
  }

  lemma {:induction false} TailIsCanonical(rest: seq<Byte>, out: seq<Byte>) returns (tail: Tail)
    requires rest != [] && ReadSequence(rest, out).Finished?
    ensures ValidTail(tail) && rest == SerializeTail(tail) && ReadSequence(rest, out).out == WithTail(out, tail)
  {
    TokenIsCanonical(rest);
    var (n, literals) := ReadLength(rest[0] / 16, rest[1..]).value;
    tail := Tail(literals, n, rest[0] % 16);
  }

  lemma {:induction false} ConsSequence(s: Sequence, ss: seq<Sequence>, tail: Tail, out: seq<Byte>, out': seq<Byte>)
    requires ValidSequence(s, |out|) && out' == Repeat(out + s.literals, s.offset, s.matchLength)
    requires ValidSequences(ss, |out'|) && ValidTail(tail)
    ensures ValidSequences([s] + ss, |out|)
    ensures SerializeSequences([s] + ss, |out|) + SerializeTail(tail)
            == SerializeSequence(s) + (SerializeSequences(ss, |out'|) + SerializeTail(tail))
    ensures Expand([s] + ss, out) == Expand(ss, out')
  {
    assert ([s] + ss)[1..] == ss;
    SerializationSplits([s] + ss, tail, |out|);
  }

  lemma {:induction false} DecodedBlock(rest: seq<Byte>, out: seq<Byte>) returns (ss: seq<Sequence>, tail: Tail)
    requires DecodeFrom(rest, out).Ok?
    ensures ValidSequences(ss, |out|) && ValidTail(tail)
    ensures rest == SerializeSequences(ss, |out|) + SerializeTail(tail)
    ensures DecodeFrom(rest, out).value == WithTail(Expand(ss, out), tail)
    decreases |rest|
  {
    if rest == [] {
      ss, tail := [], NoTail;
    } else if ReadSequence(rest, out).Finished? {
      ss := [];
      tail := TailIsCanonical(rest, out);
      assert SerializeSequences(ss, |out|) + SerializeTail(tail) == SerializeTail(tail);
    } else {
      var p := ReadSequence(rest, out);
      var s := SequenceIsCanonical(rest, out);
      var ss', tail' := DecodedBlock(p.rest, p.out);
      ss, tail := [s] + ss', tail';
      ConsSequence(s, ss', tail', out, p.out);
    }
  }

  /** The decoder accepts a payload exactly when it serializes a block of the stated size, and then
      returns that block's expansion. */
  lemma {:induction false} DecodesExactlySerializedBlocks(payload: seq<Byte>, decodedSize: nat, out: seq<Byte>)
    ensures Decode(payload, decodedSize) == Ok(out) <==>
            |out| == decodedSize && exists b :: Valid(b) && Serialize(b) == payload && Expansion(b) == out
  {
    if Decode(payload, decodedSize) == Ok(out) {
      var ss, tail := DecodedBlock(payload, []);
      assert Valid(Block(ss, tail)) && Serialize(Block(ss, tail)) == payload;
    }
    forall b | Valid(b) && Serialize(b) == payload && Expansion(b) == out
      ensures DecodeFrom(payload, []) == Ok(out)
    {
      BlockReadsBack(b.sequences, b.tail, []);
    }
  }

  // ---------------------------------------------------------------- The decoding loops

  lemma {:induction false} ModSelf(k: nat, offset: nat)
    requires 0 < offset <= k
    ensures (k - offset) % offset == k % offset
  {
    var q, r := (k - offset) / offset, (k - offset) % offset;
    assert k == offset * (q + 1) + r;
    RemainderIsUnique(offset, q + 1, r, k / offset, k % offset);
  }

  lemma {:induction false} RemainderIsUnique(d: int, q: int, r: nat, q': int, r': nat)
    requires d * q + r == d * q' + r' && r < d && r' < d
    ensures r == r'
  {
    assert d * (q - q') == r' - r;
    if q > q' {
      MultipleAtLeast(d, q - q');
    } else if q < q' {
      MultipleAtLeast(d, q' - q);
    }
  }

  lemma {:induction false} MultipleAtLeast(d: int, k: int)
    requires d >= 0 && k >= 1
    ensures d * k >= d
  {
  }

  /** One copied byte extends the repetition by one. */
  lemma {:induction false} RepeatStep(base: seq<Byte>, offset: nat, i: nat)
    requires 1 <= offset <= |base|
    ensures
      var out := Repeat(base, offset, i);
      |base| - offset + i < |out| && Repeat(base, offset, i + 1) == out + [out[|base| - offset + i]]
  {
    var out, next := Repeat(base, offset, i), Repeat(base, offset, i + 1);
    if i >= offset {
      ModSelf(i, offset);
    } else {
      RemainderIsUnique(offset, 0, i, i / offset, i % offset);
    }
    assert next[|base| + i] == out[|base| - offset + i];
    forall k | 0 <= k < |out| ensures next[k] == out[k] {
    }
  }

  /** Copying a match byte by byte, reading bytes the copy itself has just produced, continues the
      window periodically. */
  method CopyMatch(base: seq<Byte>, offset: nat, n: nat) returns (out: seq<Byte>)
    requires 1 <= offset <= |base|
    ensures out == Repeat(base, offset, n)
  {
    out := base;
    var start := |base| - offset;
    for i := 0 to n
      invariant out == Repeat(base, offset, i)
    {
      RepeatStep(base, offset, i);
      out := out + [out[start + i]];
    }
  }

  method ReadLengthAt(payload: seq<Byte>, at: nat, nibble: nat) returns (r: Result<(nat, nat)>)
    requires at <= |payload|
    ensures r.Err? ==> ReadLength(nibble, payload[at..]) == Err(r.error)
    ensures r.Ok? ==> at <= r.value.1 <= |payload| && ReadLength(nibble, payload[at..]) == Ok((r.value.0, payload[r.value.1..]))
  {
    var length: nat, offset: nat := nibble, at;
    if length == 15 {
      while true
        invariant at <= offset <= |payload|
        invariant ReadExtension(payload[offset..], length) == ReadExtension(payload[at..], 15)
        decreases |payload| - offset
      {
        if offset >= |payload| {
          return Err(IndexOutOfRange);
        }
        var extra := payload[offset];
        assert payload[offset..][1..] == payload[offset + 1..];
        offset := offset + 1;
        length := length + extra;
        if extra != 255 {
          break;
        }
      }
    }
    return Ok((length, offset));
  }

  /** One token: its literals, and the match that follows unless the literals reach the end. */
  method ReadSequenceAt(payload: seq<Byte>, at: nat, out: seq<Byte>) returns (p: Progress, end: nat)
    requires at < |payload|
    ensures end <= |payload| && p == ReadSequence(payload[at..], out)
    ensures p.More? ==> p.rest == payload[end..] && at < end
  {
    var token := payload[at];
    assert payload[at..][1..] == payload[at + 1..];
    var literals := ReadLengthAt(payload, at + 1, token / 16);
    if literals.Err? {
      return Failed(literals.error), 0;
    }
    var (literalLength, literalStart) := literals.value;
    var offset := literalStart + literalLength;
    if offset >= |payload| {
      return Finished(out + payload[literalStart..]), 0;
    }
    assert payload[literalStart..][literalLength..] == payload[offset..];
    assert payload[literalStart..][..literalLength] == payload[literalStart..offset];
    p, end := ReadMatchAt(payload, offset, token % 16, out + payload[literalStart..offset]);
  }

  method ReadMatchAt(payload: seq<Byte>, at: nat, nibble: nat, out: seq<Byte>) returns (p: Progress, end: nat)
    requires at < |payload|
    ensures end <= |payload| && p == ReadMatch(nibble, out, payload[at..])
    ensures p.More? ==> p.rest == payload[end..] && at < end
  {
    if at + 1 >= |payload| {
      return Failed(IndexOutOfRange), 0;
    }
    var matchOffset := LittleEndian(payload[at], payload[at + 1]);
    assert payload[at..][2..] == payload[at + 2..];
    var extension := ReadLengthAt(payload, at + 2, nibble);
    if extension.Err? {
      return Failed(extension.error), 0;
    }
    var (matchLength, matchEnd) := extension.value;
    if |out| < matchOffset {
      return Failed(InvalidMatchOffset), 0;
    }
    if matchOffset == 0 {
      return Failed(IndexOutOfRange), 0;
    }
    var copied := CopyMatch(out, matchOffset, matchLength + 4);
    return More(copied, payload[matchEnd..]), matchEnd;
  }

  /** The decoding loop computes `Decode` for every payload, malformed ones included. */
  method DecodeBlock(payload: seq<Byte>, decodedSize: nat) returns (r: Result<seq<Byte>>)
    ensures r == Decode(payload, decodedSize)
  {
    var out: seq<Byte> := [];
    var offset := 0;
    while offset < |payload|
      invariant 0 <= offset <= |payload|
      invariant DecodeFrom(payload, []) == DecodeFrom(payload[offset..], out)
    {
      var p, end := ReadSequenceAt(payload, offset, out);
      match p
      case Failed(e) => return Err(e);
      case Finished(all) =>
        out := all;
        offset := |payload|;
      case More(all, _) =>
        out := all;
        offset := end;
    }
    if |out| != decodedSize {
      return Err(WrongSize(|out|));
    }
    return Ok(out);
  }
}
