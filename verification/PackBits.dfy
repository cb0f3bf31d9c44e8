/**
 * The PackBits run-length coder of the codec bench (TIFF 6.0, section 9).
 *
 * `Encoded` and `Decoded` say what the two loops compute; the lemmas say what that means:
 * decoding undoes encoding, the reserved control byte never appears, and the output stays
 * within a third of the input above its length.
 */
module PackBits {
  import opened Bytes
  import opened Sequences

  const MAX_GROUP: int := 128

  // ---------------------------------------------------------------- what the encoder emits

  /** Length of the run of equal bytes that starts at i, given that `run` of them are known. */
  function RunFrom(src: seq<byte>, i: nat, run: nat): (r: nat)
    requires i < |src| && 1 <= run && i + run <= |src| && run <= MAX_GROUP
    requires forall k :: i <= k < i + run ==> src[k] == src[i]
    ensures run <= r <= MAX_GROUP && i + r <= |src|
    ensures forall k :: i <= k < i + r ==> src[k] == src[i]
    ensures r < MAX_GROUP && i + r < |src| ==> src[i + r] != src[i]
    decreases MAX_GROUP - run
  {
    if i + run < |src| && src[i + run] == src[i] && run < MAX_GROUP then RunFrom(src, i, run + 1) else run
  }

  /** Length of the literal group of which `len` bytes end just before i. */
  function LiteralFrom(src: seq<byte>, i: nat, len: nat): (r: nat)
    requires i <= |src| && 1 <= len <= MAX_GROUP
    ensures len <= r <= MAX_GROUP && i + (r - len) <= |src|
    ensures r < MAX_GROUP ==>
              i + (r - len) == |src| || (i + (r - len) + 1 < |src| && src[i + (r - len)] == src[i + (r - len) + 1])
    decreases |src| - i
  {
    if i < |src| && len < MAX_GROUP && !(i + 1 < |src| && src[i] == src[i + 1])
    then LiteralFrom(src, i + 1, len + 1)
    else len
  }

  /** Where the group that starts at i ends: a run of two or more equal bytes, else a literal group. */
  function GroupEnd(src: seq<byte>, i: nat): (end: nat)
    requires i < |src|
    ensures i < end <= |src| && end - i <= MAX_GROUP
  {
    var run := RunFrom(src, i, 1);
    if run >= 2 then i + run else i + LiteralFrom(src, i + 1, 1)
  }

  /** The bytes emitted for the group that starts at i. */
  function Group(src: seq<byte>, i: nat): seq<byte>
    requires i < |src|
  {
    var run := RunFrom(src, i, 1);
    if run >= 2 then [257 - run, src[i]] else [GroupEnd(src, i) - i - 1] + src[i..GroupEnd(src, i)]
  }

  /** The bytes the encoder emits for src[i..]. */
  function EncodedFrom(src: seq<byte>, i: nat): seq<byte>
    requires i <= |src|
    decreases |src| - i
  {
    if i == |src| then [] else Group(src, i) + EncodedFrom(src, GroupEnd(src, i))
  }

  function Encoded(src: seq<byte>): seq<byte> {
    EncodedFrom(src, 0)
  }

  // ---------------------------------------------------------------- what the decoder accepts

  function Repeat(v: byte, n: nat): seq<byte> {
    seq(n, _ => v)
  }

  /** The result of decoding `src` when `out` has been written and the buffer holds cap bytes. */
  function DecodedOnto(src: seq<byte>, out: seq<byte>, cap: nat): Option<seq<byte>> {
    if src == [] then Some(out) else
    var c := src[0];
    if c <= 127 then
      if 1 + c + 1 > |src| || |out| + c + 1 > cap then None
      else DecodedOnto(src[c + 2..], out + src[1..c + 2], cap)
    else if c >= 129 then
      if 2 > |src| || |out| + (257 - c) > cap then None
      else DecodedOnto(src[2..], out + Repeat(src[1], 257 - c), cap)
    else DecodedOnto(src[1..], out, cap)
  }

  function Decoded(src: seq<byte>, cap: nat): Option<seq<byte>> {
    DecodedOnto(src, [], cap)
  }

  // ---------------------------------------------------------------- the loops

  function RleBound(n: nat): nat {
    n * 2 + 64
  }

  method CopyBytes(src: array<byte>, from: nat, dst: array<byte>, to: nat, n: nat)
    requires from + n <= src.Length && to + n <= dst.Length && src != dst
    modifies dst
    ensures dst[..] == old(dst[..to]) + src[from..from + n] + old(dst[to + n..])
  {
    for k := 0 to n
      invariant dst[..to] == old(dst[..to]) && dst[to + n..] == old(dst[to + n..])
      invariant dst[to..to + k] == src[from..from + k]
    {
      dst[to + k] := src[from + k];
    }
  }

  method FillBytes(v: byte, dst: array<byte>, to: nat, n: nat)
    requires to + n <= dst.Length
    modifies dst
    ensures dst[..] == old(dst[..to]) + Repeat(v, n) + old(dst[to + n..])
  {
    for k := 0 to n
      invariant dst[..to] == old(dst[..to]) && dst[to + n..] == old(dst[to + n..])
      invariant dst[to..to + k] == Repeat(v, k)
    {
      dst[to + k] := v;
    }
  }

  /** The inner loop of the literal branch: length of the group whose first byte is just before `from`. */
  method LiteralScan(src: array<byte>, from: nat) returns (litLen: nat)
    requires 1 <= from <= src.Length
    ensures litLen == LiteralFrom(src[..], from, 1)
  {
    var i := from;
    litLen := 1;
    while i < src.Length && litLen < MAX_GROUP
      invariant 1 <= litLen <= MAX_GROUP && i == from + litLen - 1 <= src.Length
      invariant LiteralFrom(src[..], i, litLen) == LiteralFrom(src[..], from, 1)
    {
      // Stop before a repeat: the run branch will take it.
      if i + 1 < src.Length && src[i] == src[i + 1] {
        break;
      }
      if i + 1 == src.Length {
        litLen := litLen + 1;
        i := i + 1;
        break;
      }
      litLen := litLen + 1;
      i := i + 1;
    }
  }

  /** The inner loop that measures a run. */
  method RunScan(src: array<byte>, i: nat) returns (run: nat)
    requires i < src.Length
    ensures run == RunFrom(src[..], i, 1)
  {
    run := 1;
    while i + run < src.Length && src[i + run] == src[i] && run < MAX_GROUP
      invariant 1 <= run <= MAX_GROUP && i + run <= src.Length
      invariant forall k :: i <= k < i + run ==> src[k] == src[i]
      invariant RunFrom(src[..], i, run) == RunFrom(src[..], i, 1)
    {
      run := run + 1;
    }
  }

  /** The run branch: control byte and repeated byte. */
  method EmitRun(src: array<byte>, i: nat, run: nat, dst: array<byte>, out: nat, dstCap: nat) returns (ok: bool)
    requires i < src.Length && out <= dstCap <= dst.Length && src != dst
    requires 2 <= run <= MAX_GROUP
    modifies dst
    ensures ok <==> out + 2 <= dstCap
    ensures ok ==> dst[..out + 2] == old(dst[..out]) + [257 - run, src[i]]
    ensures dst[dstCap..] == old(dst[dstCap..])
  {
    if out + 2 > dstCap {
      return false;
    }
    dst[out] := 257 - run;
    dst[out + 1] := src[i];
    return true;
  }

  /** The literal branch: control byte and the bytes themselves. */
  method EmitLiteral(src: array<byte>, i: nat, litLen: nat, dst: array<byte>, out: nat, dstCap: nat) returns (ok: bool)
    requires i + litLen <= src.Length && out <= dstCap <= dst.Length && src != dst
    requires 1 <= litLen <= MAX_GROUP
    modifies dst
    ensures ok <==> out + 1 + litLen <= dstCap
    ensures ok ==> dst[..out + 1 + litLen] == old(dst[..out]) + ([litLen - 1] + src[i..i + litLen])
    ensures dst[dstCap..] == old(dst[dstCap..])
  {
    if out + 1 + litLen > dstCap {
      return false;
    }
    dst[out] := litLen - 1;
    for k := 0 to litLen
      invariant dst[..out + 1 + k] == old(dst[..out]) + ([litLen - 1] + src[i..i + k])
      invariant dst[dstCap..] == old(dst[dstCap..])
    {
      dst[out + 1 + k] := src[i + k];
    }
    return true;
  }

  /** One iteration of the encoder's outer loop: writes the group that starts at i, if it fits. */
  method EmitGroup(src: array<byte>, i: nat, dst: array<byte>, out: nat, dstCap: nat)
    returns (ok: bool, i': nat, out': nat)
    requires i < src.Length && out <= dstCap <= dst.Length && src != dst
    modifies dst
    ensures ok <==> out + |Group(src[..], i)| <= dstCap
    ensures ok ==> i' == GroupEnd(src[..], i) && out' == out + |Group(src[..], i)|
    ensures ok ==> dst[..out'] == old(dst[..out]) + Group(src[..], i)
    ensures dst[dstCap..] == old(dst[dstCap..])
  {
    ghost var s := src[..];
    ghost var group, end := Group(s, i), GroupEnd(s, i);
    var run := RunScan(src, i);
    if run >= 2 {
      assert group == [257 - run, src[i]] && end == i + run;
      ok := EmitRun(src, i, run, dst, out, dstCap);
      i', out' := i + run, out + 2;
    } else {
      var litLen := LiteralScan(src, i + 1);
      assert group == [litLen - 1] + src[i..i + litLen] && end == i + litLen;
      ok := EmitLiteral(src, i, litLen, dst, out, dstCap);
      i', out' := i + litLen, out + 1 + litLen;
    }
    assert ok ==> i' == end && out' == out + |group| && dst[..out'] == old(dst[..out]) + group;
    assert src[..] == s;
  }

  /** Encodes src into dst; fails exactly when the encoding does not fit. */
  method RleEncode(src: array<byte>, dst: array<byte>, dstCap: nat) returns (ok: bool, out: nat)
    requires dstCap <= dst.Length && src != dst
    modifies dst
    ensures ok <==> |Encoded(src[..])| <= dstCap
    ensures ok ==> out <= dstCap && dst[..out] == Encoded(src[..])
    ensures dst[dstCap..] == old(dst[dstCap..])
  {
    var i := 0;
    out := 0;
    while i < src.Length
      invariant 0 <= i <= src.Length && out <= dstCap
      invariant dst[..out] + EncodedFrom(src[..], i) == Encoded(src[..])
      invariant dst[dstCap..] == old(dst[dstCap..])
    {
      ghost var s := src[..];
      Assoc(dst[..out], Group(s, i), EncodedFrom(s, GroupEnd(s, i)));
      var fits, i', out' := EmitGroup(src, i, dst, out, dstCap);
      if !fits {
        return false, out;
      }
      i, out := i', out';
    }
    ok := true;
  }

  /** Decodes any input; every index stays inside src and the first dstCap bytes of dst. */
  method RleDecode(src: array<byte>, dst: array<byte>, dstCap: nat) returns (ok: bool, outLen: nat)
    requires dstCap <= dst.Length && src != dst
    modifies dst
    ensures ok <==> Decoded(src[..], dstCap).Some?
    ensures ok ==> outLen <= dstCap && Decoded(src[..], dstCap) == Some(dst[..outLen])
    ensures dst[dstCap..] == old(dst[dstCap..])
  {
    ghost var s := src[..];
    var i, out := 0, 0;
    while i < src.Length
      invariant 0 <= i <= src.Length && 0 <= out <= dstCap && src[..] == s
      invariant DecodedOnto(s[i..], dst[..out], dstCap) == Decoded(s, dstCap)
      invariant dst[dstCap..] == old(dst[dstCap..])
    {
      ghost var rest, before := s[i..], dst[..out];
      var c := src[i];
      i := i + 1;
      if c <= 127 {
        var len := c + 1;
        if i + len > src.Length || out + len > dstCap {
          return false, 0;
        }
        CopyBytes(src, i, dst, out, len);
        assert src[..] == s && src[i..i + len] == s[i..i + len];
        assert s[i..i + len] == rest[1..c + 2] && s[i + len..] == rest[c + 2..];
        assert dst[..out + len] == before + rest[1..c + 2];
        assert DecodedOnto(rest, before, dstCap) == DecodedOnto(rest[c + 2..], before + rest[1..c + 2], dstCap);
        i := i + len;
        out := out + len;
      } else if c >= 129 {
        var len := 257 - c;
        if i + 1 > src.Length || out + len > dstCap {
          return false, 0;
        }
        var v := src[i];
        i := i + 1;
        FillBytes(v, dst, out, len);
        assert s[i..] == rest[2..];
        assert dst[..out + len] == before + Repeat(v, len);
        out := out + len;
      } else {
        assert s[i..] == rest[1..];
      }
    }
    return true, out;
  }

  // ---------------------------------------------------------------- what the encoding guarantees

  lemma EqualBytes(src: seq<byte>, i: nat, run: nat)
    requires i + run <= |src| && run > 0 && forall k :: i <= k < i + run ==> src[k] == src[i]
    ensures Repeat(src[i], run) == src[i..i + run]
  {
  }

  /** Decoding one group appends exactly the bytes it was made from. */
  lemma DecodeGroup(src: seq<byte>, i: nat, rest: seq<byte>, out: seq<byte>, cap: nat)
    requires i < |src| && |out| + GroupEnd(src, i) - i <= cap
    ensures DecodedOnto(Group(src, i) + rest, out, cap) == DecodedOnto(rest, out + src[i..GroupEnd(src, i)], cap)
  {
    var run := RunFrom(src, i, 1);
    var end := GroupEnd(src, i);
    var input := Group(src, i) + rest;
    if run >= 2 {
      assert input[2..] == rest;
      EqualBytes(src, i, run);
    } else {
      assert input[0] == end - i - 1;
      assert input[end - i + 1..] == rest && input[1..end - i + 1] == src[i..end];
    }
  }

  /** Decoding the encoder's output for src[i..] appends exactly src[i..]. */
  lemma {:induction false} RoundTripFrom(src: seq<byte>, i: nat, out: seq<byte>, cap: nat)
    requires i <= |src| && |out| + |src| - i <= cap
    ensures DecodedOnto(EncodedFrom(src, i), out, cap) == Some(out + src[i..])
    decreases |src| - i
  {
    if i == |src| {
      assert out + src[i..] == out;
    } else {
      var end := GroupEnd(src, i);
      DecodeGroup(src, i, EncodedFrom(src, end), out, cap);
      RoundTripFrom(src, end, out + src[i..end], cap);
      Resume(out, src, i, end);
    }
  }

  /** decode(encode(x)) == x for every byte string, in any buffer that holds x. */
  lemma RoundTrip(src: seq<byte>, cap: nat)
    requires |src| <= cap
    ensures Decoded(Encoded(src), cap) == Some(src)
  {
    RoundTripFrom(src, 0, [], cap);
    assert [] + src[0..] == src;
  }

  /** The control bytes of a string, read group by group. */
  function Controls(src: seq<byte>): seq<byte> {
    if src == [] then [] else
    var c := src[0];
    var size := if c <= 127 then c + 2 else if c >= 129 then 2 else 1;
    [c] + (if size <= |src| then Controls(src[size..]) else [])
  }

  lemma ControlsOfGroup(src: seq<byte>, i: nat, rest: seq<byte>)
    requires i < |src|
    ensures Controls(Group(src, i) + rest) == [Group(src, i)[0]] + Controls(rest)
    ensures Group(src, i)[0] != 128
  {
    var group := Group(src, i);
    assert (group + rest)[|group|..] == rest;
  }

  lemma {:induction false} NoReservedFrom(src: seq<byte>, i: nat)
    requires i <= |src|
    ensures 128 !in Controls(EncodedFrom(src, i))
    decreases |src| - i
  {
    if i < |src| {
      var end := GroupEnd(src, i);
      ControlsOfGroup(src, i, EncodedFrom(src, end));
      NoReservedFrom(src, end);
    }
  }

  /** The encoder never emits the reserved control byte 128. */
  lemma NoReservedControl(src: seq<byte>)
    ensures 128 !in Controls(Encoded(src))
  {
    NoReservedFrom(src, 0);
  }

  /**
   * A literal group costs one byte; unless it is full or last, a run of at least two bytes follows and
   * pays for most of it: what starts with such a run stays within a third of its own length.
   */
  lemma {:induction false} SizeFrom(src: seq<byte>, i: nat, runNext: bool)
    requires i <= |src|
    requires runNext ==> i + 1 < |src| && src[i] == src[i + 1]
    ensures 3 * |EncodedFrom(src, i)| <= 4 * (|src| - i) + (if runNext then 0 else 2)
    decreases |src| - i
  {
    if i < |src| {
      var end := GroupEnd(src, i);
      SizeFrom(src, end, RunFrom(src, i, 1) < 2 && end - i < MAX_GROUP && end < |src|);
    }
  }

  /** The output is at most n + (n + 2) / 3 bytes, so a buffer of RleBound(n) bytes always suffices. */
  lemma SizeBound(src: seq<byte>)
    ensures |Encoded(src)| <= |src| + (|src| + 2) / 3 <= RleBound(|src|)
  {
    SizeFrom(src, 0, false);
  }

  // ---------------------------------------------------------------- which groups are emitted

  /** A byte that differs from its successor, if it has one. */
  predicate NoRepeatAt(src: seq<byte>, k: nat)
    requires k < |src|
  {
    k + 1 < |src| ==> src[k] != src[k + 1]
  }

  lemma {:induction false} LiteralHasNoRepeat(src: seq<byte>, i: nat, len: nat)
    requires i <= |src| && 1 <= len <= MAX_GROUP
    ensures forall k :: i <= k < i + (LiteralFrom(src, i, len) - len) ==> NoRepeatAt(src, k)
    decreases |src| - i
  {
    if i < |src| && len < MAX_GROUP && !(i + 1 < |src| && src[i] == src[i + 1]) {
      LiteralHasNoRepeat(src, i + 1, len + 1);
    }
  }

  /** A run of at least two equal bytes that cannot be longer. */
  ghost predicate LongestRun(src: seq<byte>, i: nat, end: nat)
    requires i < end <= |src|
  {
    && 2 <= end - i <= 128 && (forall k :: i <= k < end ==> src[k] == src[i])
    && (end == |src| || end - i == 128 || src[end] != src[i])
  }

  /** Bytes without a repeat that end where they must: at the next repeat, the end, or the size limit. */
  ghost predicate LongestLiteral(src: seq<byte>, i: nat, end: nat)
    requires i < end <= |src|
  {
    && end - i <= 128 && (forall k :: i <= k < end ==> NoRepeatAt(src, k))
    && (end == |src| || end - i == 128 || !NoRepeatAt(src, end))
  }

  /**
   * The encoder is greedy: where a byte repeats it emits the longest run as a count and the byte, elsewhere
   * the longest stretch without a repeat, as its length and the bytes themselves.
   */
  lemma GroupsAreGreedy(src: seq<byte>, i: nat)
    requires i < |src|
    ensures var end, group := GroupEnd(src, i), Group(src, i);
            if NoRepeatAt(src, i) then LongestLiteral(src, i, end) && group == [end - i - 1] + src[i..end]
            else LongestRun(src, i, end) && group == [257 - (end - i), src[i]]
  {
    LiteralHasNoRepeat(src, i + 1, 1);
    var run := RunFrom(src, i, 1);
    if i + 1 < |src| && src[i] == src[i + 1] {
      assert run >= 2;
    }
  }

  /** In a run every group takes as much as it can, in two bytes. */
  lemma GroupOfRun(v: byte, n: nat, i: nat)
    requires i < n
    ensures GroupEnd(Repeat(v, n), i) == Min(n, i + 128) && |Group(Repeat(v, n), i)| == 2
  {
    GroupsAreGreedy(Repeat(v, n), i);
  }

  lemma {:induction false} RunFromSize(v: byte, n: nat, i: nat, groups: nat)
    requires i <= n && 128 * (groups - 1) < n - i <= 128 * groups
    ensures |EncodedFrom(Repeat(v, n), i)| == 2 * groups
    decreases groups
  {
    if i < n {
      var src, end := Repeat(v, n), Min(n, i + 128);
      GroupOfRun(v, n, i);
      assert EncodedFrom(src, i) == Group(src, i) + EncodedFrom(src, end);
      RunFromSize(v, n, end, groups - 1);
    }
  }

  /** Runs compress: n equal bytes take two bytes for every 128 begun. */
  lemma RunSize(v: byte, n: nat)
    ensures |Encoded(Repeat(v, n))| == 2 * ((n + 127) / 128)
  {
    RunFromSize(v, n, 0, (n + 127) / 128);
  }

  // ---------------------------------------------------------------- what any groups decode to

  datatype PackGroup = Literals(bytes: seq<byte>) | RunOf(v: byte, n: nat) | Nothing

  predicate Encodable(g: PackGroup) {
    match g
    case Literals(bytes) => 1 <= |bytes| <= 128
    case RunOf(_, n) => 2 <= n <= 128
    case Nothing => true
  }

  function Printed(g: PackGroup): seq<byte>
    requires Encodable(g)
  {
    match g
    case Literals(bytes) => [|bytes| - 1] + bytes
    case RunOf(v, n) => [257 - n, v]
    case Nothing => [128]
  }

  function Meaning(g: PackGroup): seq<byte> {
    match g
    case Literals(bytes) => bytes
    case RunOf(v, n) => Repeat(v, n)
    case Nothing => []
  }

  ghost predicate AllEncodable(groups: seq<PackGroup>) {
    forall i :: 0 <= i < |groups| ==> Encodable(groups[i])
  }

  ghost function AllPrinted(groups: seq<PackGroup>): seq<byte>
    requires AllEncodable(groups)
  {
    if groups == [] then [] else Printed(groups[0]) + AllPrinted(groups[1..])
  }

  function AllMeant(groups: seq<PackGroup>): seq<byte> {
    if groups == [] then [] else Meaning(groups[0]) + AllMeant(groups[1..])
  }

  lemma GroupDecodes(g: PackGroup, rest: seq<byte>, out: seq<byte>, cap: nat)
    requires Encodable(g) && |out| <= cap
    ensures DecodedOnto(Printed(g) + rest, out, cap)
         == if |out| + |Meaning(g)| <= cap then DecodedOnto(rest, out + Meaning(g), cap) else None
  {
    var input := Printed(g) + rest;
    match g
    case Literals(bytes) =>
      assert input[1..|bytes| + 1] == bytes && input[|bytes| + 1..] == rest;
    case RunOf(v, n) =>
      assert input[2..] == rest;
    case Nothing =>
      assert input[1..] == rest && out + [] == out;
  }

  /**
   * Any groups, the reserved control byte included, decode to what they mean when the buffer holds it, and
   * fail when it does not.
   */
  lemma {:induction false} GroupsDecode(groups: seq<PackGroup>, out: seq<byte>, cap: nat)
    requires AllEncodable(groups) && |out| <= cap
    ensures DecodedOnto(AllPrinted(groups), out, cap)
         == if |out| + |AllMeant(groups)| <= cap then Some(out + AllMeant(groups)) else None
  {
    if groups == [] {
      assert out + [] == out;
    } else {
      var g := groups[0];
      GroupDecodes(g, AllPrinted(groups[1..]), out, cap);
      if |out| + |Meaning(g)| <= cap {
        GroupsDecode(groups[1..], out + Meaning(g), cap);
        Assoc(out, Meaning(g), AllMeant(groups[1..]));
      }
    }
  }

  /** A group cut short fails, whatever the room. */
  lemma GroupCut(g: PackGroup, k: nat, out: seq<byte>, cap: nat)
    requires Encodable(g) && 0 < k < |Printed(g)|
    ensures DecodedOnto(Printed(g)[..k], out, cap) == None
  {
  }
}
