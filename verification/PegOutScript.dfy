/** Reading a peg-out output script: OP_RETURN, the parent's genesis hash, a destination script. */
module PegOutScript {
  import opened Hex
  import opened Options

  const OP_RETURN: Byte := 0x6a
  const OP_PUSHBYTES_75: Byte := 0x4b
  const OP_PUSHDATA1: Byte := 0x4c
  const OP_PUSHDATA2: Byte := 0x4d
  const OP_PUSHDATA4: Byte := 0x4e
  const HASH_BYTES: nat := 32

  // ---------------------------------------------------------------------------------------------
  // Instructions

  datatype Instruction = Op(opcode: Byte) | PushBytes(bytes: Bytes)

  /** One step of the iterator: an instruction or an early end, and what is left to read. */
  datatype Step = Step(item: Result<Instruction, ()>, rest: Bytes)

  /** The number that little-endian bytes stand for. */
  function LittleEndian(b: Bytes): nat {
    if b == [] then 0 else b[0] + 256 * LittleEndian(b[1..])
  }

  function TakePush(data: Bytes, n: nat): Step {
    if n <= |data| then Step(Ok(PushBytes(data[..n])), data[n..]) else Step(Err(()), [])
  }

  /** A push whose length is in the next `width` bytes. */
  function TakePushData(data: Bytes, width: nat): Step {
    if width <= |data| then TakePush(data[width..], LittleEndian(data[..width])) else Step(Err(()), [])
  }

  /** The next instruction; a push that is cut short ends the script. */
  function NextInstruction(data: Bytes): Step
    requires data != []
  {
    var opcode, rest := data[0], data[1..];
    if opcode <= OP_PUSHBYTES_75 then TakePush(rest, opcode)
    else if opcode == OP_PUSHDATA1 then TakePushData(rest, 1)
    else if opcode == OP_PUSHDATA2 then TakePushData(rest, 2)
    else if opcode == OP_PUSHDATA4 then TakePushData(rest, 4)
    else Step(Ok(Op(opcode)), rest)
  }

  /** The iterator over a script's instructions. */
  class Instructions {
    var data: Bytes

    constructor (script: Bytes)
      ensures data == script
    {
      data := script;
    }

    method Next() returns (item: Option<Result<Instruction, ()>>)
      modifies this
      ensures old(data) == [] ==> item == None && data == []
      ensures old(data) != [] ==>
          item == Some(NextInstruction(old(data)).item) && data == NextInstruction(old(data)).rest
    {
      if data == [] {
        return None;
      }
      var step := NextInstruction(data);
      data := step.rest;
      return Some(step.item);
    }
  }

  // ---------------------------------------------------------------------------------------------
  // Peg-outs

  datatype Target = Target(parentGenesis: Bytes, destination: Bytes)

  datatype ScriptError = NotOpReturn | NoGenesisPush | NoDestinationPush

  /** The bytes pushed by the first instruction of `data`, if it is a push. */
  function Pushed(data: Bytes): Option<Bytes> {
    if data == [] then None
    else
      match NextInstruction(data).item
      case Ok(PushBytes(bytes)) => Some(bytes)
      case _ => None
  }

  function DecodeScript(script: Bytes): Result<Target, ScriptError> {
    if script == [] || script[0] != OP_RETURN then Err(NotOpReturn)
    else
      var genesis := Pushed(script[1..]);
      if genesis.None? || |genesis.value| != HASH_BYTES then Err(NoGenesisPush)
      else
        var destination := Pushed(NextInstruction(script[1..]).rest);
        if destination.None? || destination.value == [] then Err(NoDestinationPush)
        else Ok(Target(genesis.value, destination.value))
  }

  /** `decode_peg_out_script`. */
  method DecodePegOutScript(script: Bytes) returns (r: Result<Target, ScriptError>)
    ensures r == DecodeScript(script)
  {
    var instructions := new Instructions(script);
    var first := instructions.Next();
    if first != Some(Ok(Op(OP_RETURN))) {
      return Err(NotOpReturn);
    }
    var second := instructions.Next();
    if second.None? || second.value.Err? || second.value.value.Op? || |second.value.value.bytes| != HASH_BYTES {
      return Err(NoGenesisPush);
    }
    var raw := new Byte[HASH_BYTES](_ => 0);
    for i := 0 to HASH_BYTES
      modifies raw
      invariant raw[..i] == second.value.value.bytes[..i]
    {
      raw[i] := second.value.value.bytes[i];
    }
    var genesis := raw[..];
    assert genesis == raw[..HASH_BYTES] == second.value.value.bytes;
    var third := instructions.Next();
    if third.None? || third.value.Err? || third.value.value.Op? || third.value.value.bytes == [] {
      return Err(NoDestinationPush);
    }
    return Ok(Target(genesis, third.value.value.bytes));
  }

  // ---------------------------------------------------------------------------------------------
  // The grammar

  /** The `width` bytes of `n`, the lowest first. */
  function Bytes256(n: nat, width: nat): (b: Bytes)
    ensures |b| == width
  {
    if width == 0 then [] else [n % 256] + Bytes256(n / 256, width - 1)
  }

  function Pow256(width: nat): nat {
    if width == 0 then 1 else 256 * Pow256(width - 1)
  }

  lemma {:induction false} LittleEndianOfBytes(n: nat, width: nat)
    requires n < Pow256(width)
    ensures LittleEndian(Bytes256(n, width)) == n
  {
    if width > 0 {
      LittleEndianOfBytes(n / 256, width - 1);
    }
  }

  lemma {:induction false} BytesOfLittleEndian(b: Bytes)
    ensures LittleEndian(b) < Pow256(|b|) && Bytes256(LittleEndian(b), |b|) == b
  {
    if b != [] {
      BytesOfLittleEndian(b[1..]);
      var high := LittleEndian(b[1..]);
      OneByte(b[0], high, |b| - 1);
      assert Pow256(|b|) == 256 * Pow256(|b| - 1);
      assert b == [b[0]] + b[1..];
      hide Bytes256, Pow256;
    }
  }

  lemma OneByte(low: Byte, high: nat, width: nat)
    ensures Bytes256(low + 256 * high, width + 1) == [low] + Bytes256(high, width)
    ensures Bytes256(high, 0) == []
  {
    assert (low + 256 * high) % 256 == low && (low + 256 * high) / 256 == high;
  }

  /** `code` is one of the four ways to push `bytes`, the shortest or not. */
  predicate IsPush(code: Bytes, bytes: Bytes) {
    var n := |bytes|;
    || (n <= 75 && code == [n] + bytes)
    || (n < 0x100 && code == [76] + Bytes256(n, 1) + bytes)
    || (n < 0x1_0000 && code == [77] + Bytes256(n, 2) + bytes)
    || (n < 0x1_0000_0000 && code == [78] + Bytes256(n, 4) + bytes)
  }

  lemma Powers()
    ensures Pow256(1) == 0x100 && Pow256(2) == 0x1_0000 && Pow256(4) == 0x1_0000_0000
  {
    assert Pow256(3) == 256 * Pow256(2) && Pow256(2) == 256 * Pow256(1) && Pow256(1) == 256 * Pow256(0);
  }

  lemma PushDataReads(opcode: Byte, width: nat, bytes: Bytes, rest: Bytes)
    requires |bytes| < Pow256(width)
    ensures var data := Bytes256(|bytes|, width) + bytes + rest;
      TakePushData(data, width) == Step(Ok(PushBytes(bytes)), rest)
  {
    LittleEndianOfBytes(|bytes|, width);
    hide Bytes256, LittleEndian, Pow256;
    FrontAndBack(Bytes256(|bytes|, width), bytes, rest);
    FrontAndBack(bytes, rest, []);
    assert bytes + rest + [] == bytes + rest && rest + [] == rest;
  }

  lemma FrontAndBack(x: Bytes, y: Bytes, z: Bytes)
    ensures (x + y + z)[..|x|] == x && (x + y + z)[|x|..] == y + z
  {
  }

  /** Every way to push is read back. */
  lemma PushReads(code: Bytes, bytes: Bytes, rest: Bytes)
    requires IsPush(code, bytes)
    ensures code != [] && NextInstruction(code + rest) == Step(Ok(PushBytes(bytes)), rest)
  {
    hide Bytes256, LittleEndian, Pow256;
    Powers();
    var n, data := |bytes|, code + rest;
    if n <= OP_PUSHBYTES_75 && code == [n] + bytes {
      assert data[1..] == bytes + rest;
    } else if n < 0x100 && code == [OP_PUSHDATA1] + Bytes256(n, 1) + bytes {
      assert data[1..] == Bytes256(n, 1) + bytes + rest;
      PushDataReads(OP_PUSHDATA1, 1, bytes, rest);
    } else if n < 0x1_0000 && code == [OP_PUSHDATA2] + Bytes256(n, 2) + bytes {
      assert data[1..] == Bytes256(n, 2) + bytes + rest;
      PushDataReads(OP_PUSHDATA2, 2, bytes, rest);
    } else {
      assert data[1..] == Bytes256(n, 4) + bytes + rest;
      PushDataReads(OP_PUSHDATA4, 4, bytes, rest);
    }
  }

  /** Whatever is read as a push was written as one. */
  lemma ReadsPush(data: Bytes)
    requires Pushed(data).Some?
    ensures var rest := NextInstruction(data).rest;
      && |rest| <= |data| && data[|data| - |rest|..] == rest
      && IsPush(data[..|data| - |rest|], Pushed(data).value)
  {
    hide Bytes256, LittleEndian, Pow256;
    Powers();
    if data[0] > OP_PUSHBYTES_75 {
      var width := if data[0] == OP_PUSHDATA1 then 1 else if data[0] == OP_PUSHDATA2 then 2 else 4;
      var length := data[1..][..width];
      BytesOfLittleEndian(length);
      var bytes := Pushed(data).value;
      assert length == Bytes256(|bytes|, width);
      var n := 1 + width + |bytes|;
      assert data[..n] == [data[0]] + length + bytes;
    } else {
      var n: nat := data[0];
      assert data[..n + 1] == [n] + data[1..][..n];
    }
  }

  /** A script that pushes `target` after OP_RETURN, followed by anything. */
  predicate Encodes(script: Bytes, target: Target, p: Bytes, q: Bytes, rest: Bytes) {
    && script == [0x6a] + p + q + rest
    && IsPush(p, target.parentGenesis) && |target.parentGenesis| == HASH_BYTES
    && IsPush(q, target.destination) && target.destination != []
  }

  lemma EncodedDecodes(script: Bytes, target: Target, p: Bytes, q: Bytes, rest: Bytes)
    requires Encodes(script, target, p, q, rest)
    ensures DecodeScript(script) == Ok(target)
  {
    hide IsPush, NextInstruction;
    assert script[1..] == p + (q + rest);
    PushReads(p, target.parentGenesis, q + rest);
    PushReads(q, target.destination, rest);
  }

  /** A script decodes to a target exactly when it is OP_RETURN, a push of the target's 32-byte genesis
      hash and a push of its nonempty destination, each in any of the four forms, followed by
      anything. */
  lemma DecodeIff(script: Bytes, target: Target)
    ensures DecodeScript(script) == Ok(target) <==>
      exists p: Bytes, q: Bytes, rest: Bytes :: Encodes(script, target, p, q, rest)
  {
    hide IsPush, NextInstruction;
    if p: Bytes, q: Bytes, rest: Bytes :| Encodes(script, target, p, q, rest) {
      EncodedDecodes(script, target, p, q, rest);
    } else if DecodeScript(script) == Ok(target) {
      var after := script[1..];
      ReadsPush(after);
      var rest := NextInstruction(after).rest;
      ReadsPush(rest);
      var last := NextInstruction(rest).rest;
      var p, q := after[..|after| - |rest|], rest[..|rest| - |last|];
      assert script == [OP_RETURN] + p + q + last;
      assert Encodes(script, target, p, q, last);
    }
  }

  /** A length is written with its lowest byte first. */
  lemma LowestFirst(a: Byte, b: Byte, c: Byte, d: Byte)
    ensures Bytes256(a, 1) == [a] && Bytes256(a + 0x100 * b, 2) == [a, b]
    ensures Bytes256(a + 0x100 * b + 0x1_0000 * c + 0x100_0000 * d, 4) == [a, b, c, d]
  {
    hide Bytes256;
    var n2, n3 := c + 256 * d, b + 256 * (c + 256 * d);
    OneByte(a, 0, 0);
    OneByte(b, 0, 0);
    OneByte(d, 0, 0);
    OneByte(a, b, 1);
    OneByte(c, d, 1);
    OneByte(b, n2, 2);
    OneByte(a, n3, 3);
    assert a + 0x100 * b + 0x1_0000 * c + 0x100_0000 * d == a + 256 * n3;
  }

  /** OP_RETURN and a push of 32 bytes. */
  predicate OpensWith(script: Bytes, genesis: Bytes, p: Bytes, rest: Bytes) {
    script == [0x6a] + p + rest && IsPush(p, genesis) && |genesis| == 32
  }

  /** Which part of a script that does not decode is missing: the first of the three. */
  lemma MissingIff(script: Bytes)
    ensures DecodeScript(script) == Err(NotOpReturn) <==> script == [] || script[0] != 0x6a
    ensures DecodeScript(script) == Err(NoGenesisPush) <==>
      script != [] && script[0] == 0x6a && !exists genesis, p, rest :: OpensWith(script, genesis, p, rest)
  {
    hide IsPush, NextInstruction;
    if script != [] && script[0] == 0x6a {
      var after := script[1..];
      if Pushed(after).Some? {
        ReadsPush(after);
        var rest := NextInstruction(after).rest;
        var p := after[..|after| - |rest|];
        assert script == [0x6a] + p + rest;
        assert |Pushed(after).value| == 32 ==> OpensWith(script, Pushed(after).value, p, rest);
      }
      if genesis, p, rest :| OpensWith(script, genesis, p, rest) {
        assert after == p + rest;
        PushReads(p, genesis, rest);
      }
    }
  }

  /** The shortest push, as a node writes it. */
  function ShortestPush(bytes: Bytes): (code: Bytes)
    requires |bytes| < 0x1_0000_0000
    ensures IsPush(code, bytes)
  {
    var n := |bytes|;
    if n <= OP_PUSHBYTES_75 then [n] + bytes
    else if n < 0x100 then [OP_PUSHDATA1] + Bytes256(n, 1) + bytes
    else if n < 0x1_0000 then [OP_PUSHDATA2] + Bytes256(n, 2) + bytes
    else [OP_PUSHDATA4] + Bytes256(n, 4) + bytes
  }

  function EncodeScript(target: Target): Bytes
    requires |target.parentGenesis| == HASH_BYTES && |target.destination| < 0x1_0000_0000
  {
    [OP_RETURN] + ShortestPush(target.parentGenesis) + ShortestPush(target.destination)
  }

  /** Encoding a target and decoding it gives it back, whatever follows it in the script. */
  lemma ScriptRoundTrip(target: Target, rest: Bytes)
    requires |target.parentGenesis| == HASH_BYTES && 0 < |target.destination| < 0x1_0000_0000
    ensures DecodeScript(EncodeScript(target) + rest) == Ok(target)
  {
    hide ShortestPush, IsPush;
    EncodedDecodes(EncodeScript(target) + rest, target,
                   ShortestPush(target.parentGenesis), ShortestPush(target.destination), rest);
  }
}
