/**
 * The driver's LZ4 probe-payload builder, and the block decoder of the quality script.
 *
 * The builder looks for a literal count whose encoding has exactly the requested length and writes
 * one sequence of zero literals, one match at distance one, and five final literals.
 */
module ProbePayload {
  import opened Bytes
  import opened Sequences

  const FINAL_LITERALS: int := 5
  const MIN_LITERALS: int := 4

  function Zeros(n: nat): (z: seq<byte>)
    ensures |z| == n
  {
    seq(n, _ => 0)
  }

  // ---------------------------------------------------------------- sizes

  function ExtensionSize(length: nat, base: nat): nat {
    if length < base then 0 else 1 + (length - base) / 255
  }

  /** Literal counts that leave a match of at least four bytes and the five final literals. */
  predicate Usable(raw: nat, literals: nat) {
    MIN_LITERALS <= literals && literals + 4 + FINAL_LITERALS <= raw
  }

  function MatchLength(raw: nat, literals: nat): (m: nat)
    requires Usable(raw, literals)
    ensures m >= 4
  {
    raw - literals - FINAL_LITERALS
  }

  function EncodedSize(raw: nat, literals: nat): nat
    requires Usable(raw, literals)
  {
    1 + literals + 2 + ExtensionSize(literals, 15)
    + ExtensionSize(MatchLength(raw, literals), 19) + 1 + FINAL_LITERALS
  }

  /** The first usable literal count at or above `from` whose encoding has the requested size. */
  function FirstFit(raw: nat, payloadLength: nat, from: nat): (l: Option<nat>)
    requires MIN_LITERALS <= from
    ensures l.Some? ==> from <= l.value && Usable(raw, l.value) && EncodedSize(raw, l.value) == payloadLength
    ensures l.Some? ==> forall k :: from <= k < l.value ==> Usable(raw, k) && EncodedSize(raw, k) != payloadLength
    ensures l.None? ==> forall k :: from <= k && Usable(raw, k) ==> EncodedSize(raw, k) != payloadLength
    decreases raw - from
  {
    if !Usable(raw, from) then None
    else if EncodedSize(raw, from) == payloadLength then Some(from)
    else FirstFit(raw, payloadLength, from + 1)
  }

  // ---------------------------------------------------------------- the bytes written

  function ExtensionChain(value: nat): (s: seq<byte>)
    ensures |s| == 1 + value / 255
  {
    if value >= 255 then [255] + ExtensionChain(value - 255) else [value]
  }

  function Extension(length: nat, base: nat): (s: seq<byte>)
    ensures |s| == ExtensionSize(length, base)
  {
    if length < base then [] else ExtensionChain(length - base)
  }

  function LastSequence(): seq<byte> {
    [FINAL_LITERALS * 16] + Zeros(FINAL_LITERALS)
  }

  function Token(literals: nat, matchLength: nat): byte
    requires 4 <= matchLength
  {
    Min(literals, 15) * 16 + Min(matchLength - 4, 15)
  }

  function LiteralPart(literals: nat): (p: seq<byte>)
    ensures |p| == ExtensionSize(literals, 15) + literals
  {
    Extension(literals, 15) + Zeros(literals)
  }

  function MatchPart(matchLength: nat): (p: seq<byte>)
    ensures |p| == 2 + ExtensionSize(matchLength, 19)
  {
    [1, 0] + Extension(matchLength, 19)
  }

  function Payload(raw: nat, literals: nat): (p: seq<byte>)
    requires Usable(raw, literals)
    ensures |p| == EncodedSize(raw, literals)
  {
    var m := MatchLength(raw, literals);
    [Token(literals, m)] + LiteralPart(literals) + MatchPart(m) + LastSequence()
  }

  // ---------------------------------------------------------------- the builder

  method WriteChain(payload: array<byte>, start: nat, length: nat) returns (at: nat)
    requires start + 1 + length / 255 <= payload.Length
    modifies payload
    ensures at == start + 1 + length / 255
    ensures payload[start..at] == ExtensionChain(length)
    ensures forall k :: 0 <= k < start || at <= k < payload.Length ==> payload[k] == old(payload[k])
  {
    at := start;
    var value := length;
    ghost var written := [];
    while value >= 255
      invariant value >= 0 && start <= at && at + 1 + value / 255 == start + 1 + length / 255
      invariant payload[start..at] == written && written + ExtensionChain(value) == ExtensionChain(length)
      invariant forall k :: 0 <= k < start || at <= k < payload.Length ==> payload[k] == old(payload[k])
    {
      payload[at] := 255;
      Assoc(written, [255], ExtensionChain(value - 255));
      assert payload[start..at + 1] == written + [255];
      written := written + [255];
      at := at + 1;
      value := value - 255;
    }
    payload[at] := value;
    at := at + 1;
    assert payload[start..at] == written + [value];
  }

  method WriteExtension(payload: array<byte>, start: nat, length: nat, base: nat) returns (at: nat)
    requires start + ExtensionSize(length, base) <= payload.Length
    modifies payload
    ensures at == start + ExtensionSize(length, base)
    ensures payload[..at] == old(payload[..start]) + Extension(length, base)
    ensures forall k :: at <= k < payload.Length ==> payload[k] == old(payload[k])
  {
    at := start;
    if length >= base {
      at := WriteChain(payload, start, length - base);
    }
  }

  method WriteZeros(payload: array<byte>, start: nat, n: nat) returns (at: nat)
    requires start + n <= payload.Length
    modifies payload
    ensures at == start + n
    ensures payload[..at] == old(payload[..start]) + Zeros(n)
    ensures forall k :: at <= k < payload.Length ==> payload[k] == old(payload[k])
  {
    for k := 0 to n
      invariant payload[..start + k] == old(payload[..start]) + Zeros(k)
      invariant forall j :: start + n <= j < payload.Length ==> payload[j] == old(payload[j])
    {
      payload[start + k] := 0;
    }
    at := start + n;
  }

  method WriteMatch(payload: array<byte>, start: nat, matchLength: nat) returns (at: nat)
    requires start + 2 + ExtensionSize(matchLength, 19) <= payload.Length
    modifies payload
    ensures at == start + 2 + ExtensionSize(matchLength, 19)
    ensures payload[..at] == old(payload[..start]) + MatchPart(matchLength)
    ensures forall k :: at <= k < payload.Length ==> payload[k] == old(payload[k])
  {
    payload[start], payload[start + 1] := 1, 0;
    at := WriteExtension(payload, start + 2, matchLength, 19);
  }

  method WriteLastSequence(payload: array<byte>, start: nat) returns (at: nat)
    requires start + 1 + FINAL_LITERALS <= payload.Length
    modifies payload
    ensures at == start + 1 + FINAL_LITERALS
    ensures payload[..at] == old(payload[..start]) + LastSequence()
    ensures forall k :: at <= k < payload.Length ==> payload[k] == old(payload[k])
  {
    payload[start] := FINAL_LITERALS * 16;
    at := WriteZeros(payload, start + 1, FINAL_LITERALS);
  }

  /** Writes the sequence for a literal count that fits. */
  method WritePayload(payload: array<byte>, raw: nat, literals: nat) returns (at: nat)
    requires Usable(raw, literals) && EncodedSize(raw, literals) <= payload.Length
    modifies payload
    ensures at == EncodedSize(raw, literals) && payload[..at] == Payload(raw, literals)
    ensures forall k :: at <= k < payload.Length ==> payload[k] == old(payload[k])
  {
    var m := MatchLength(raw, literals);
    payload[0] := Token(literals, m);
    at := WriteExtension(payload, 1, literals, 15);
    at := WriteZeros(payload, at, literals);
    assert payload[..at] == [Token(literals, m)] + LiteralPart(literals);
    at := WriteMatch(payload, at, m);
    at := WriteLastSequence(payload, at);
  }

  /**
   * Builds a payload of exactly payloadLength bytes. It succeeds exactly when some literal count
   * encodes to that length, and writes nothing otherwise or beyond it.
   */
  method BuildProbePayload(payload: array<byte>, payloadLength: nat, rawLength: nat) returns (ret: int)
    requires payloadLength <= payload.Length && rawLength >= 4
    modifies payload
    ensures ret == 0 || ret == -EINVAL
    ensures ret == 0 <==>
            payloadLength <= MAX_PAYLOAD_LIMIT && payloadLength < rawLength &&
            exists l :: Usable(rawLength, l) && EncodedSize(rawLength, l) == payloadLength
    ensures ret == 0 ==>
              FirstFit(rawLength, payloadLength, MIN_LITERALS).Some? &&
              payload[..payloadLength] == Payload(rawLength, FirstFit(rawLength, payloadLength, MIN_LITERALS).value)
    ensures ret == 0 ==> Decompressed(payload[..payloadLength], rawLength) == Some(Zeros(rawLength))
    ensures payload[payloadLength..] == old(payload[payloadLength..])
    ensures ret != 0 ==> payload[..] == old(payload[..])
  {
    if payloadLength > MAX_PAYLOAD_LIMIT || rawLength <= payloadLength {
      return -EINVAL;
    }
    var literals := MIN_LITERALS;
    while literals <= rawLength - 4
      invariant MIN_LITERALS <= literals
      invariant FirstFit(rawLength, payloadLength, literals) == FirstFit(rawLength, payloadLength, MIN_LITERALS)
      invariant payload[..] == old(payload[..])
    {
      if rawLength >= literals + 4 + FINAL_LITERALS {
        if EncodedSize(rawLength, literals) == payloadLength {
          var at := WritePayload(payload, rawLength, literals);
          ProbeRoundTrip(rawLength, literals);
          return if at == payloadLength then 0 else -EINVAL;
        }
      } else {
        assert FirstFit(rawLength, payloadLength, literals).None?;
      }
      literals := literals + 1;
    }
    return -EINVAL;
  }

  // ---------------------------------------------------------------- the decoder

  datatype Length = Length(value: nat, rest: seq<byte>)

  /** Reads 255-continued length bytes; None where the script would index past the end. */
  function ReadChain(data: seq<byte>, acc: nat): (r: Option<Length>)
    ensures r.Some? ==> |r.value.rest| < |data|
  {
    if data == [] then None
    else if data[0] != 255 then Some(Length(acc + data[0], data[1..]))
    else ReadChain(data[1..], acc + data[0])
  }

  function ReadLength(data: seq<byte>, nibble: nat): (r: Option<Length>)
    ensures r.Some? ==> |r.value.rest| <= |data|
  {
    if nibble == 15 then ReadChain(data, 15) else Some(Length(nibble, data))
  }

  /** Python indexing: a negative index counts from the end. */
  function At(out: seq<byte>, index: int): Option<byte> {
    var i := if index < 0 then index + |out| else index;
    if 0 <= i < |out| then Some(out[i]) else None
  }

  /** Copies byte by byte from `start`, so a match may overlap its own output. */
  function CopyMatch(out: seq<byte>, start: int, n: nat): Option<seq<byte>>
    decreases n
  {
    if n == 0 then Some(out) else
    match At(out, start)
    case None => None
    case Some(v) => CopyMatch(out + [v], start + 1, n - 1)
  }

  /** What is left after one step of the decoding loop. */
  datatype Step = Malformed | Finished(out: seq<byte>) | More(rest: seq<byte>, out: seq<byte>)

  /** The literals of one sequence; the loop stops when they reach the end of the data. */
  function LiteralStep(token: byte, data: seq<byte>, out: seq<byte>): (s: Step)
    ensures s.More? ==> 0 < |s.rest| <= |data|
  {
    match ReadLength(data, token / 16)
    case None => Malformed
    case Some(Length(n, rest)) =>
      if |rest| <= n then Finished(out + rest) else More(rest[n..], out + rest[..n])
  }

  /** The offset and match of one sequence. */
  function MatchStep(token: byte, data: seq<byte>, out: seq<byte>): (s: Step)
    ensures s.More? ==> |s.rest| < |data|
  {
    if |data| < 2 then Malformed else
    var offset := (data[0] as int) + 256 * (data[1] as int);
    match ReadLength(data[2..], token % 16)
    case None => Malformed
    case Some(Length(n, rest)) =>
      match CopyMatch(out, |out| - offset, n + 4)
      case None => Malformed
      case Some(out') => More(rest, out')
  }

  function SequenceStep(data: seq<byte>, out: seq<byte>): (s: Step)
    requires data != []
    ensures s.More? ==> |s.rest| < |data|
  {
    match LiteralStep(data[0], data[1..], out)
    case More(rest, out') => MatchStep(data[0], rest, out')
    case stop => stop
  }

  function DecompressOnto(data: seq<byte>, out: seq<byte>): Option<seq<byte>>
    decreases |data|
  {
    if data == [] then Some(out) else
    match SequenceStep(data, out)
    case Malformed => None
    case Finished(out') => Some(out')
    case More(rest, out') => DecompressOnto(rest, out')
  }

  /** What lz4_decompress returns; None stands for the IndexError it raises on malformed input. */
  function Decompressed(data: seq<byte>, outLen: nat): Option<seq<byte>> {
    match DecompressOnto(data, [])
    case None => None
    case Some(out) => Some(if |out| <= outLen then out else out[..outLen])
  }

  method ReadLengthAt(data: seq<byte>, start: nat, nibble: nat) returns (ok: bool, length: nat, i: nat)
    requires start <= |data|
    ensures ok <==> ReadLength(data[start..], nibble).Some?
    ensures ok ==> i <= |data| && ReadLength(data[start..], nibble) == Some(Length(length, data[i..]))
  {
    length, i := nibble, start;
    if length == 15 {
      var more := true;
      while more
        invariant start <= i <= |data|
        invariant more ==> ReadChain(data[i..], length) == ReadLength(data[start..], nibble)
        invariant !more ==> Some(Length(length, data[i..])) == ReadLength(data[start..], nibble)
        decreases |data| - i, more
      {
        if i >= |data| {
          return false, length, i;
        }
        var b := data[i];
        assert data[i..][1..] == data[i + 1..];
        i := i + 1;
        length := length + b;
        more := b == 255;
      }
    }
    ok := true;
  }

  /** The match loop: appends one byte at a time. */
  method CopyMatchLoop(before: seq<byte>, offset: nat, matchLen: nat) returns (result: Option<seq<byte>>)
    ensures result == CopyMatch(before, |before| - offset, matchLen)
  {
    var out := before;
    var start := |out| - offset;
    for k := 0 to matchLen
      invariant CopyMatch(out, start + k, matchLen - k) == CopyMatch(before, start, matchLen)
    {
      var v := At(out, start + k);
      if v.None? {
        return None;
      }
      out := out + [v.value];
    }
    return Some(out);
  }

  /** The literals of the sequence whose token is at `start`. */
  method DecodeLiteralPart(data: seq<byte>, start: nat, before: seq<byte>)
    returns (ok: bool, done: bool, at: nat, out: seq<byte>)
    requires start < |data|
    ensures !ok ==> LiteralStep(data[start], data[start + 1..], before).Malformed?
    ensures ok && done ==> LiteralStep(data[start], data[start + 1..], before) == Finished(out)
    ensures ok && !done ==>
              start < at <= |data| && LiteralStep(data[start], data[start + 1..], before) == More(data[at..], out)
  {
    done, at, out := false, start, before;
    var litLen, i;
    ok, litLen, i := ReadLengthAt(data, start + 1, data[start] / 16);
    if !ok {
      return;
    }
    if i + litLen >= |data| {
      return true, true, |data|, out + data[i..];
    }
    assert data[i..][..litLen] == data[i..i + litLen];
    assert data[i..][litLen..] == data[i + litLen..];
    at, out := i + litLen, out + data[i..i + litLen];
  }

  /** Its offset and match, which start at i. */
  method DecodeMatchPart(data: seq<byte>, token: byte, i: nat, before: seq<byte>)
    returns (ok: bool, at: nat, out: seq<byte>)
    requires i <= |data|
    ensures !ok ==> MatchStep(token, data[i..], before).Malformed?
    ensures ok ==> i < at <= |data| && MatchStep(token, data[i..], before) == More(data[at..], out)
  {
    at, out := i, before;
    if i + 1 >= |data| {
      return false, at, out;
    }
    var offset := (data[i] as int) + 256 * (data[i + 1] as int);
    assert data[i..][2..] == data[i + 2..];
    var matchLen;
    ok, matchLen, at := ReadLengthAt(data, i + 2, token % 16);
    if !ok {
      return;
    }
    var copied := CopyMatchLoop(out, offset, matchLen + 4);
    if copied.None? {
      return false, at, out;
    }
    out := copied.value;
  }

  /** One pass of the decoding loop; `at` is where the next sequence starts. */
  method DecodeSequence(data: seq<byte>, start: nat, before: seq<byte>)
    returns (ok: bool, done: bool, at: nat, out: seq<byte>)
    requires start < |data|
    ensures !ok ==> SequenceStep(data[start..], before).Malformed?
    ensures ok && done ==> SequenceStep(data[start..], before) == Finished(out)
    ensures ok && !done ==> start < at <= |data| && SequenceStep(data[start..], before) == More(data[at..], out)
  {
    assert data[start..][1..] == data[start + 1..];
    ok, done, at, out := DecodeLiteralPart(data, start, before);
    if !ok || done {
      return;
    }
    ok, at, out := DecodeMatchPart(data, data[start], at, out);
  }

  /** The decoding loop of the script. */
  method Lz4Decompress(data: seq<byte>, outLen: nat) returns (result: Option<seq<byte>>)
    ensures result == Decompressed(data, outLen)
  {
    var out: seq<byte> := [];
    var i := 0;
    while i < |data|
      invariant 0 <= i <= |data|
      invariant DecompressOnto(data[i..], out) == DecompressOnto(data, [])
      decreases |data| - i
    {
      var ok, done, at, out' := DecodeSequence(data, i, out);
      if !ok {
        return None;
      }
      i, out := at, out';
      if done {
        return Some(if |out| <= outLen then out else out[..outLen]);
      }
    }
    return Some(if |out| <= outLen then out else out[..outLen]);
  }

  // ---------------------------------------------------------------- builder and decoder undo each other

  lemma {:induction false} ReadChainUndoes(value: nat, rest: seq<byte>, acc: nat)
    ensures ReadChain(ExtensionChain(value) + rest, acc) == Some(Length(acc + value, rest))
  {
    var chain := ExtensionChain(value) + rest;
    if value >= 255 {
      ReadChainUndoes(value - 255, rest, acc + 255);
      assert chain[1..] == ExtensionChain(value - 255) + rest;
    } else {
      assert chain[1..] == rest;
    }
  }

  /** A nibble and its extension bytes carry any length (base is 15 for literals, 15 + 4 for matches). */
  lemma ReadLengthUndoes(length: nat, rest: seq<byte>)
    ensures ReadLength(Extension(length, 15) + rest, Min(length, 15)) == Some(Length(length, rest))
  {
    if length >= 15 {
      ReadChainUndoes(length - 15, rest, 15);
    } else {
      assert Extension(length, 15) + rest == rest;
    }
  }

  // ---------------------------------------------------------------- what a match copies

  /** The index byte i of a copy is read at, `shift` from i; a negative one counts from the end. */
  function ReadAt(i: nat, shift: int): int {
    if i + shift < 0 then i + shift + i else i + shift
  }

  predicate Readable(i: nat, shift: int) {
    0 <= ReadAt(i, shift) < i
  }

  predicate Copied(r: seq<byte>, i: nat, shift: int)
    requires i < |r|
  {
    Readable(i, shift) && r[i] == r[ReadAt(i, shift)]
  }

  /** The result of a copy of n bytes. */
  ghost predicate CopyOf(r: seq<byte>, out: seq<byte>, shift: int, n: nat) {
    && |r| == |out| + n && r[..|out|] == out
    && forall i :: |out| <= i < |r| ==> Copied(r, i, shift)
  }

  lemma CopyContinues(r: seq<byte>, out: seq<byte>, v: byte, shift: int, n: nat)
    requires n > 0 && Readable(|out|, shift) && v == out[ReadAt(|out|, shift)] && CopyOf(r, out + [v], shift, n - 1)
    ensures CopyOf(r, out, shift, n)
  {
    var next := out + [v];
    assert r[..|out|] == r[..|next|][..|out|] == out;
    assert r[|out|] == r[..|next|][|out|] == v;
    assert r[ReadAt(|out|, shift)] == r[..|out|][ReadAt(|out|, shift)];
  }

  /** A copy fails exactly when some byte has nothing to be read from; otherwise each new byte is the one read. */
  lemma {:induction false} CopyIsExact(out: seq<byte>, shift: int, n: nat)
    ensures var r := CopyMatch(out, |out| + shift, n);
            && (r.Some? <==> forall i :: |out| <= i < |out| + n ==> Readable(i, shift))
            && (r.Some? ==> CopyOf(r.value, out, shift, n))
    decreases n
  {
    if n > 0 {
      if Readable(|out|, shift) {
        var v := out[ReadAt(|out|, shift)];
        CopyIsExact(out + [v], shift, n - 1);
        var r := CopyMatch(out + [v], |out| + 1 + shift, n - 1);
        if r.Some? {
          CopyContinues(r.value, out, v, shift, n);
        }
      }
    }
  }

  /** Every byte from `have` on equals the one `offset` before it. */
  ghost predicate Repeats(r: seq<byte>, have: nat, offset: nat) {
    forall i :: offset <= have <= i < |r| ==> r[i] == r[i - offset]
  }

  /** The usual match, for any bytes: the result extends `out` by n bytes, each equal to the one `offset` before it. */
  lemma MatchRepeats(out: seq<byte>, offset: nat, n: nat)
    requires 0 < offset <= |out|
    ensures var r := CopyMatch(out, |out| - offset, n);
            r.Some? && |r.value| == |out| + n && r.value[..|out|] == out && Repeats(r.value, |out|, offset)
  {
    var shift: int := 0 - offset;
    CopyIsExact(out, shift, n);
    var r := CopyMatch(out, |out| - offset, n).value;
    forall i | |out| <= i < |r|
      ensures r[i] == r[i - offset]
    {
      assert Copied(r, i, shift);
    }
  }

  // ---------------------------------------------------------------- blocks and the bytes they denote

  /** Literals, and a match that repeats what is `offset` bytes back. */
  datatype Sequence = Sequence(literals: seq<byte>, offset: nat, matchLength: nat)

  /** What a match adds, byte by byte. */
  function Repeated(out: seq<byte>, offset: nat, n: nat): (r: seq<byte>)
    requires 0 < offset <= |out|
    ensures |r| == |out| + n
  {
    if n == 0 then out else
    var before := Repeated(out, offset, n - 1);
    before + [before[|before| - offset]]
  }

  /** The format's limits: offsets of two bytes into what there is, matches of at least four bytes. */
  predicate Encodable(s: Sequence, have: nat) {
    0 < s.offset <= have + |s.literals| && s.offset < 0x1_0000 && s.matchLength >= 4
  }

  predicate AllEncodable(sequences: seq<Sequence>, have: nat) {
    sequences == [] ||
    (Encodable(sequences[0], have)
     && AllEncodable(sequences[1..], have + |sequences[0].literals| + sequences[0].matchLength))
  }

  /** The bytes the sequences denote, after those there are. */
  function Denoted(sequences: seq<Sequence>, out: seq<byte>): seq<byte>
    requires AllEncodable(sequences, |out|)
  {
    if sequences == [] then out else
    var s := sequences[0];
    Denoted(sequences[1..], Repeated(out + s.literals, s.offset, s.matchLength))
  }

  function EncodedLiterals(literals: seq<byte>): seq<byte> {
    Extension(|literals|, 15) + literals
  }

  function EncodedMatch(s: Sequence): seq<byte>
    requires s.offset < 0x1_0000
  {
    [s.offset % 256, s.offset / 256] + Extension(s.matchLength, 19)
  }

  function EncodedSequence(s: Sequence): seq<byte>
    requires s.offset < 0x1_0000 && s.matchLength >= 4
  {
    [Token(|s.literals|, s.matchLength)] + EncodedLiterals(s.literals) + EncodedMatch(s)
  }

  /** The last sequence has literals only. */
  function EncodedEnd(literals: seq<byte>): seq<byte> {
    [Min(|literals|, 15) * 16] + EncodedLiterals(literals)
  }

  function EncodedBlock(sequences: seq<Sequence>, last: seq<byte>, have: nat): seq<byte>
    requires AllEncodable(sequences, have)
  {
    if sequences == [] then EncodedEnd(last) else
    var s := sequences[0];
    EncodedSequence(s) + EncodedBlock(sequences[1..], last, have + |s.literals| + s.matchLength)
  }

  // ---------------------------------------------------------------- decoding undoes encoding

  /** There is only one way to repeat. */
  lemma {:induction false} SameRepetition(out: seq<byte>, r: seq<byte>, offset: nat, n: nat)
    requires 0 < offset <= |out| && |r| == |out| + n && r[..|out|] == out && Repeats(r, |out|, offset)
    ensures r == Repeated(out, offset, n)
  {
    if n > 0 {
      var before := r[..|r| - 1];
      assert before[..|out|] == r[..|out|];
      SameRepetition(out, before, offset, n - 1);
      assert r == before + [r[|r| - 1]];
    } else {
      assert r[..|out|] == r;
    }
  }

  lemma CopyIsRepeated(out: seq<byte>, offset: nat, n: nat)
    requires 0 < offset <= |out|
    ensures CopyMatch(out, |out| - offset, n) == Some(Repeated(out, offset, n))
  {
    MatchRepeats(out, offset, n);
    SameRepetition(out, CopyMatch(out, |out| - offset, n).value, offset, n);
  }

  lemma TokenNibbles(literals: nat, matchLength: nat)
    requires 4 <= matchLength
    ensures Token(literals, matchLength) / 16 == Min(literals, 15)
    ensures Token(literals, matchLength) % 16 == Min(matchLength - 4, 15)
  {
  }

  lemma DecodeLiterals(token: byte, literals: seq<byte>, rest: seq<byte>, out: seq<byte>)
    requires token / 16 == Min(|literals|, 15)
    ensures LiteralStep(token, EncodedLiterals(literals) + rest, out)
         == if rest == [] then Finished(out + literals) else More(rest, out + literals)
  {
    var afterLength := literals + rest;
    assert EncodedLiterals(literals) + rest == Extension(|literals|, 15) + afterLength;
    ReadLengthUndoes(|literals|, afterLength);
    assert afterLength[|literals|..] == rest && afterLength[..|literals|] == literals;
    if rest == [] {
      assert afterLength == literals;
    }
  }

  lemma OffsetBytes(s: Sequence, rest: seq<byte>)
    requires s.matchLength >= 4 && s.offset < 0x1_0000
    ensures var data := EncodedMatch(s) + rest;
            && |data| >= 2 && (data[0] as int) + 256 * (data[1] as int) == s.offset
            && data[2..] == Extension(s.matchLength - 4, 15) + rest
  {
    assert Extension(s.matchLength, 19) == Extension(s.matchLength - 4, 15);
  }

  lemma MatchStepCopies(
    token: byte, data: seq<byte>, offset: nat, n: nat, rest: seq<byte>, out: seq<byte>, r: seq<byte>)
    requires |data| >= 2 && (data[0] as int) + 256 * (data[1] as int) == offset
    requires ReadLength(data[2..], token % 16) == Some(Length(n, rest))
    requires CopyMatch(out, |out| - offset, n + 4) == Some(r)
    ensures MatchStep(token, data, out) == More(rest, r)
  {
  }

  /** The match length of an encoded match. */
  lemma MatchLengthReads(token: byte, s: Sequence, rest: seq<byte>, tail: seq<byte>)
    requires s.matchLength >= 4 && token % 16 == Min(s.matchLength - 4, 15)
    requires tail == Extension(s.matchLength - 4, 15) + rest
    ensures ReadLength(tail, token % 16) == Some(Length(s.matchLength - 4, rest))
  {
    ReadLengthUndoes(s.matchLength - 4, rest);
  }

  lemma DecodeMatchBytes(token: byte, data: seq<byte>, s: Sequence, rest: seq<byte>, out: seq<byte>)
    requires s.matchLength >= 4 && token % 16 == Min(s.matchLength - 4, 15) && 0 < s.offset <= |out|
    requires |data| >= 2 && (data[0] as int) + 256 * (data[1] as int) == s.offset
    requires data[2..] == Extension(s.matchLength - 4, 15) + rest
    ensures MatchStep(token, data, out) == More(rest, Repeated(out, s.offset, s.matchLength))
  {
    var n, r := s.matchLength - 4, Repeated(out, s.offset, s.matchLength);
    assert CopyMatch(out, |out| - s.offset, n + 4) == Some(r) by {
      CopyIsRepeated(out, s.offset, s.matchLength);
    }
    assert ReadLength(data[2..], token % 16) == Some(Length(n, rest)) by {
      MatchLengthReads(token, s, rest, data[2..]);
    }
    MatchStepCopies(token, data, s.offset, n, rest, out, r);
  }

  lemma DecodeMatch(token: byte, s: Sequence, rest: seq<byte>, out: seq<byte>)
    requires s.matchLength >= 4 && token % 16 == Min(s.matchLength - 4, 15)
    requires 0 < s.offset <= |out| && s.offset < 0x1_0000
    ensures MatchStep(token, EncodedMatch(s) + rest, out) == More(rest, Repeated(out, s.offset, s.matchLength))
  {
    OffsetBytes(s, rest);
    DecodeMatchBytes(token, EncodedMatch(s) + rest, s, rest, out);
  }

  lemma Regroup(a: seq<byte>, b: seq<byte>, c: seq<byte>, d: seq<byte>)
    ensures a + b + c + d == a + (b + (c + d))
  {
  }

  lemma DecodeSequenceParts(token: byte, data: seq<byte>, out: seq<byte>, rest: seq<byte>, out': seq<byte>)
    requires LiteralStep(token, data, out) == More(rest, out')
    ensures SequenceStep([token] + data, out) == MatchStep(token, rest, out')
  {
    assert ([token] + data)[1..] == data;
  }

  /** One pass over an encoded sequence adds its literals and its match. */
  lemma SequenceDecodes(s: Sequence, rest: seq<byte>, out: seq<byte>)
    requires Encodable(s, |out|)
    ensures SequenceStep(EncodedSequence(s) + rest, out)
         == More(rest, Repeated(out + s.literals, s.offset, s.matchLength))
  {
    var token := Token(|s.literals|, s.matchLength);
    var tail := EncodedMatch(s) + rest;
    TokenNibbles(|s.literals|, s.matchLength);
    DecodeLiterals(token, s.literals, tail, out);
    DecodeMatch(token, s, rest, out + s.literals);
    DecodeSequenceParts(token, EncodedLiterals(s.literals) + tail, out, tail, out + s.literals);
    Regroup([token], EncodedLiterals(s.literals), EncodedMatch(s), rest);
  }

  lemma EndDecodes(last: seq<byte>, out: seq<byte>)
    ensures DecompressOnto(EncodedEnd(last), out) == Some(out + last)
  {
    var token := Min(|last|, 15) * 16;
    DecodeLiterals(token, last, [], out);
    assert EncodedEnd(last)[1..] == EncodedLiterals(last) + [];
  }

  /**
   * The decoder undoes the format: any sequences of arbitrary literals, offsets and match lengths, ended by
   * literals, decode to the bytes they denote.
   */
  lemma {:induction false} BlockDecodes(sequences: seq<Sequence>, last: seq<byte>, out: seq<byte>)
    requires AllEncodable(sequences, |out|)
    ensures DecompressOnto(EncodedBlock(sequences, last, |out|), out) == Some(Denoted(sequences, out) + last)
  {
    if sequences == [] {
      EndDecodes(last, out);
    } else {
      var s := sequences[0];
      var out' := Repeated(out + s.literals, s.offset, s.matchLength);
      SequenceDecodes(s, EncodedBlock(sequences[1..], last, |out'|), out);
      BlockDecodes(sequences[1..], last, out');
    }
  }

  /** What the script returns for a block: the denoted bytes, cut to the length asked for. */
  lemma BlockDecompresses(sequences: seq<Sequence>, last: seq<byte>, outLen: nat)
    requires AllEncodable(sequences, 0)
    ensures var r, whole := Decompressed(EncodedBlock(sequences, last, 0), outLen), Denoted(sequences, []) + last;
            r.Some? && r.value <= whole && |r.value| == Min(outLen, |whole|)
  {
    BlockDecodes(sequences, last, []);
  }

  lemma {:induction false} ChainCut(value: nat, k: nat, acc: nat)
    requires k < |ExtensionChain(value)|
    ensures ReadChain(ExtensionChain(value)[..k], acc).None?
  {
    var cut := ExtensionChain(value)[..k];
    if k > 0 {
      ChainCut(value - 255, k - 1, acc + 255);
      assert cut[1..] == ExtensionChain(value - 255)[..k - 1];
    }
  }

  lemma LengthCut(length: nat, k: nat)
    requires k < |Extension(length, 15)|
    ensures ReadLength(Extension(length, 15)[..k], Min(length, 15)).None?
  {
    ChainCut(length - 15, k, 15);
  }

  lemma LiteralsCut(token: byte, literals: seq<byte>, k: nat, out: seq<byte>)
    requires token / 16 == Min(|literals|, 15) && k <= |EncodedLiterals(literals)|
    ensures var head := ExtensionSize(|literals|, 15);
            LiteralStep(token, EncodedLiterals(literals)[..k], out)
              == if k < head then Malformed else Finished(out + literals[..k - head])
  {
    var head := ExtensionSize(|literals|, 15);
    var cut := EncodedLiterals(literals)[..k];
    if k < head {
      LengthCut(|literals|, k);
      assert cut == Extension(|literals|, 15)[..k];
    } else {
      assert cut == Extension(|literals|, 15) + literals[..k - head];
      ReadLengthUndoes(|literals|, literals[..k - head]);
    }
  }

  lemma MatchCut(token: byte, s: Sequence, k: nat, out: seq<byte>)
    requires s.matchLength >= 4 && token % 16 == Min(s.matchLength - 4, 15) && s.offset < 0x1_0000
    requires k < |EncodedMatch(s)|
    ensures MatchStep(token, EncodedMatch(s)[..k], out).Malformed?
  {
    var cut := EncodedMatch(s)[..k];
    if k >= 2 {
      assert Extension(s.matchLength, 19) == Extension(s.matchLength - 4, 15);
      assert cut[2..] == Extension(s.matchLength - 4, 15)[..k - 2];
      LengthCut(s.matchLength - 4, k - 2);
    }
  }

  /** A sequence cut off inside a length or its offset is an error; inside its literals it ends the data. */
  lemma SequenceCut(s: Sequence, k: nat, out: seq<byte>)
    requires Encodable(s, |out|) && 0 < k < |EncodedSequence(s)|
    ensures var head := 1 + ExtensionSize(|s.literals|, 15);
            SequenceStep(EncodedSequence(s)[..k], out)
              == if head <= k <= head + |s.literals| then Finished(out + s.literals[..k - head]) else Malformed
  {
    var token, literals := Token(|s.literals|, s.matchLength), EncodedLiterals(s.literals);
    var cut := EncodedSequence(s)[..k];
    TokenNibbles(|s.literals|, s.matchLength);
    assert cut[0] == token;
    if k <= 1 + |literals| {
      assert cut[1..] == literals[..k - 1];
      LiteralsCut(token, s.literals, k - 1, out);
    } else {
      var tail := EncodedMatch(s)[..k - 1 - |literals|];
      assert cut == [token] + (literals + tail);
      DecodeLiterals(token, s.literals, tail, out);
      DecodeSequenceParts(token, literals + tail, out, tail, out + s.literals);
      MatchCut(token, s, k - 1 - |literals|, out + s.literals);
    }
  }

  // ---------------------------------------------------------------- the builder's payload is such a block

  /** Literal zeros and a match one byte back. */
  function ZeroSequence(raw: nat, literals: nat): Sequence
    requires Usable(raw, literals)
  {
    Sequence(Zeros(literals), 1, MatchLength(raw, literals))
  }

  lemma PayloadIsBlock(raw: nat, literals: nat)
    requires Usable(raw, literals)
    ensures AllEncodable([ZeroSequence(raw, literals)], 0)
    ensures Payload(raw, literals) == EncodedBlock([ZeroSequence(raw, literals)], Zeros(FINAL_LITERALS), 0)
    ensures Payload(raw, literals) == EncodedSequence(ZeroSequence(raw, literals)) + LastSequence()
  {
    var s := ZeroSequence(raw, literals);
    assert [s][1..] == [];
    assert EncodedEnd(Zeros(FINAL_LITERALS)) == LastSequence();
    assert MatchPart(s.matchLength) == EncodedMatch(s);
    assert LiteralPart(literals) == EncodedLiterals(s.literals);
  }

  lemma RepeatedZeros(have: nat, n: nat)
    requires have > 0
    ensures Repeated(Zeros(have), 1, n) == Zeros(have + n)
  {
    var z := Zeros(have + n);
    assert z[..have] == Zeros(have);
    SameRepetition(Zeros(have), z, 1, n);
  }

  /** Whatever the builder writes decodes to raw_length zero bytes, of which the last five are literals. */
  lemma ProbeRoundTrip(raw: nat, literals: nat)
    requires Usable(raw, literals)
    ensures Decompressed(Payload(raw, literals), raw) == Some(Zeros(raw))
    ensures var p := Payload(raw, literals);
            p[|p| - 1 - FINAL_LITERALS] == FINAL_LITERALS * 16 &&
            DecompressOnto(p, []) == DecompressOnto(p[|p| - 1 - FINAL_LITERALS..], Zeros(raw - FINAL_LITERALS))
  {
    var s, p := ZeroSequence(raw, literals), Payload(raw, literals);
    PayloadIsBlock(raw, literals);
    SequenceDecodes(s, LastSequence(), []);
    assert [] + s.literals == Zeros(literals);
    RepeatedZeros(literals, s.matchLength);
    EndDecodes(Zeros(FINAL_LITERALS), Zeros(raw - FINAL_LITERALS));
    assert EncodedEnd(Zeros(FINAL_LITERALS)) == LastSequence();
    assert Zeros(raw - FINAL_LITERALS) + Zeros(FINAL_LITERALS) == Zeros(raw);
    assert p[|p| - 1 - FINAL_LITERALS..] == LastSequence();
    assert DecompressOnto(p, []) == DecompressOnto(LastSequence(), Zeros(raw - FINAL_LITERALS)) by {
      assert SequenceStep(p, []) == More(LastSequence(), Zeros(raw - FINAL_LITERALS));
    }
  }

  // ---------------------------------------------------------------- which lengths can be built

  /** One more literal lengthens the encoding by zero, one or two bytes. */
  lemma SizeStep(raw: nat, literals: nat)
    requires Usable(raw, literals + 1) && MIN_LITERALS <= literals
    ensures EncodedSize(raw, literals) <= EncodedSize(raw, literals + 1) <= EncodedSize(raw, literals) + 2
  {
    assert MatchLength(raw, literals) == MatchLength(raw, literals + 1) + 1;
  }

  lemma {:induction false} SizeMonotone(raw: nat, a: nat, b: nat)
    requires Usable(raw, a) && Usable(raw, b) && a <= b
    ensures EncodedSize(raw, a) <= EncodedSize(raw, b)
    decreases b - a
  {
    if a < b {
      SizeMonotone(raw, a, b - 1);
      SizeStep(raw, b - 1);
    }
  }

  ghost predicate Constructible(raw: nat, payloadLength: nat) {
    exists l :: Usable(raw, l) && EncodedSize(raw, l) == payloadLength
  }

  /** The largest usable literal count already encodes to no less than the raw length. */
  lemma LargestCountIsLong(raw: nat, literals: nat)
    requires Usable(raw, literals)
    ensures Usable(raw, literals + 1) || EncodedSize(raw, literals) >= raw
  {
  }

  lemma {:induction false} NeighbourFrom(raw: nat, payloadLength: nat, literals: nat)
    requires Usable(raw, literals) && EncodedSize(raw, literals) <= payloadLength < raw
    ensures Constructible(raw, payloadLength) || (payloadLength > 0 && Constructible(raw, payloadLength - 1))
    decreases raw - literals
  {
    if EncodedSize(raw, literals) < payloadLength - 1 {
      LargestCountIsLong(raw, literals);
      SizeStep(raw, literals);
      NeighbourFrom(raw, payloadLength, literals + 1);
    }
  }

  /** Every length from the smallest encoding up to raw_length - 1 is constructible, or the one below it is. */
  lemma NeighbourIsConstructible(raw: nat, payloadLength: nat)
    requires Usable(raw, MIN_LITERALS) && EncodedSize(raw, MIN_LITERALS) <= payloadLength < raw
    ensures Constructible(raw, payloadLength) || (payloadLength > 0 && Constructible(raw, payloadLength - 1))
  {
    NeighbourFrom(raw, payloadLength, MIN_LITERALS);
  }

  /** Below the smallest encoding nothing is constructible. */
  lemma NothingBelowSmallest(raw: nat, payloadLength: nat)
    requires Usable(raw, MIN_LITERALS) && payloadLength < EncodedSize(raw, MIN_LITERALS)
    ensures !Constructible(raw, payloadLength)
  {
    forall l | Usable(raw, l)
      ensures EncodedSize(raw, l) != payloadLength
    {
      SizeMonotone(raw, MIN_LITERALS, l);
    }
  }

  // ---------------------------------------------------------------- the end-of-block rule of the format

  /** The last match starts at least twelve bytes before the end of the decoded block. */
  predicate LastMatchRule(raw: nat, literals: nat) {
    raw - literals >= 12
  }

  /**
   * The builder does not check that rule. For any length it accepts, the rule holds unless the payload is
   * one byte shorter than the raw block and at most 279 bytes, or two bytes shorter and at most 23.
   */
  lemma LastMatchRuleExactly(raw: nat, payloadLength: nat, literals: nat)
    requires payloadLength < raw && Usable(raw, literals) && EncodedSize(raw, literals) == payloadLength
    ensures LastMatchRule(raw, literals) <==>
            !((raw - payloadLength == 1 && payloadLength <= 279) || (raw - payloadLength == 2 && payloadLength <= 23))
    ensures literals >= 270 ==> LastMatchRule(raw, literals)
  {
    var m := MatchLength(raw, literals);
    assert raw - payloadLength == m - 4 - ExtensionSize(literals, 15) - ExtensionSize(m, 19);
  }

  /** A concrete payload the builder accepts whose last match starts only eleven bytes before the end. */
  lemma LastMatchRuleCanFail()
    ensures FirstFit(26, 25, MIN_LITERALS) == Some(15) && !LastMatchRule(26, 15)
  {
    forall l | MIN_LITERALS <= l < 15
      ensures Usable(26, l) && EncodedSize(26, l) <= 23
    {
      SizeMonotone(26, l, 14);
    }
    var fit := FirstFit(26, 25, MIN_LITERALS);
    assert EncodedSize(26, 15) == 25;
  }
}
