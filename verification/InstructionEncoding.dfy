/** The 32-bit instruction format: what the emitter packs and what the virtual machine unpacks
    (src/compiler/Emitter.cpp:25-86, src/vm/Bytecode.h:311-368, src/vm/VM.cpp:4729-4758). */
module InstructionEncoding {

  /** A word below 2^32: opcode in the lowest byte, then three bytes A, B, C, or A and sixteen bits, or 24 bits. */
  type Word = nat

  datatype Result<T> = Ok(value: T) | TooLarge

  /** How an operand is read: a plain byte, or a byte whose top bit tells constants from registers. */
  datatype Kind = Normal | Register | ConstantIndex

  const EXTRAARG := 3
  const LIMIT := 0x1000000

  // ----- Fields -----

  function Opcode(w: Word): nat { w % 0x100 }

  function FieldA(w: Word): nat { w / 0x100 % 0x100 }

  function FieldB(w: Word): nat { w / 0x10000 % 0x100 }

  function FieldC(w: Word): nat { w / 0x1000000 }

  function FieldBx(w: Word): nat { w / 0x10000 }

  function FieldAx(w: Word): nat { w / 0x100 }

  function SignedBx(w: Word): int { FieldBx(w) - 0x7FFF }

  function SignedAx(w: Word): int { FieldAx(w) - 0x7FFFFF }

  /** Fields are masked to their width. */
  function CreateABC(op: nat, a: int, b: int, c: int): Word {
    op % 0x100 + 0x100 * (a % 0x100) + 0x10000 * (b % 0x100) + 0x1000000 * (c % 0x100)
  }

  function CreateABx(op: nat, a: int, bx: int): Word {
    op % 0x100 + 0x100 * (a % 0x100) + 0x10000 * (bx % 0x10000)
  }

  function CreateAx(op: nat, ax: int): Word {
    op % 0x100 + 0x100 * (ax % LIMIT)
  }

  lemma LowByte(x: nat, y: nat)
    requires x < 0x100
    ensures (x + 0x100 * y) % 0x100 == x && (x + 0x100 * y) / 0x100 == y
  {
  }

  lemma FieldsABC(op: nat, a: int, b: int, c: int)
    ensures var w := CreateABC(op, a, b, c);
      w < 0x100000000 && Opcode(w) == op % 0x100 && FieldA(w) == a % 0x100 && FieldB(w) == b % 0x100 &&
        FieldC(w) == c % 0x100
  {
    var w, x, y, z := CreateABC(op, a, b, c), a % 0x100, b % 0x100, c % 0x100;
    assert w == op % 0x100 + 0x100 * (x + 0x100 * (y + 0x100 * z));
    LowByte(op % 0x100, x + 0x100 * (y + 0x100 * z));
    LowByte(x, y + 0x100 * z);
    LowByte(y, z);
    assert w / 0x10000 == w / 0x100 / 0x100 && w / 0x1000000 == w / 0x100 / 0x100 / 0x100;
  }

  lemma FieldsABx(op: nat, a: int, bx: int)
    ensures var w := CreateABx(op, a, bx);
      w < 0x100000000 && Opcode(w) == op % 0x100 && FieldA(w) == a % 0x100 && FieldBx(w) == bx % 0x10000
  {
  }

  lemma FieldsAx(op: nat, ax: int)
    ensures var w := CreateAx(op, ax); w < 0x100000000 && Opcode(w) == op % 0x100 && FieldAx(w) == ax % LIMIT
  {
  }

  // ----- Packing -----

  /** encodeOperand: the byte before it is masked, and whether an extra word follows. */
  function EncodeOperand(val: int, kind: Kind): Result<(int, bool)> {
    if val >= LIMIT then TooLarge else
      match kind
      case Normal => Ok(if val >= 255 then (255, true) else (val, false))
      case Register => Ok(if val >= 127 then (127, true) else (val, false))
      case ConstantIndex => Ok(if val >= 127 then (255, true) else (WithTopBit(val), false))
  }

  /** `val | 0x80` on a two's complement number. */
  function WithTopBit(val: int): int {
    if val % 0x100 < 0x80 then val + 0x80 else val
  }

  /** buildInstABC */
  method BuildABC(op: nat, a: int, b: int, c: int, bKind: Kind, cKind: Kind) returns (r: Result<seq<Word>>)
    ensures r == PackedABC(op, a, b, c, bKind, cKind)
  {
    hide CreateABC, CreateAx, EncodeOperand, Extra;
    var encA := EncodeOperand(a, Normal);
    if encA.TooLarge? {
      return TooLarge;
    }
    var encB := EncodeOperand(b, bKind);
    if encB.TooLarge? {
      return TooLarge;
    }
    var encC := EncodeOperand(c, cKind);
    if encC.TooLarge? {
      return TooLarge;
    }
    ExtraIs(a, Normal);
    ExtraIs(b, bKind);
    ExtraIs(c, cKind);
    var words := [CreateABC(op, encA.value.0, encB.value.0, encC.value.0)];
    if encA.value.1 {
      words := words + [CreateAx(EXTRAARG, a)];
    }
    if encB.value.1 {
      words := words + [CreateAx(EXTRAARG, b)];
    }
    if encC.value.1 {
      words := words + [CreateAx(EXTRAARG, c)];
    }
    assert words == PackedABC(op, a, b, c, bKind, cKind).value;
    return Ok(words);
  }

  function Extra(val: int, kind: Kind): seq<Word> {
    if val >= (if kind == Normal then 255 else 127) then [CreateAx(EXTRAARG, val)] else []
  }

  function PackedABC(op: nat, a: int, b: int, c: int, bKind: Kind, cKind: Kind): Result<seq<Word>> {
    var encA, encB, encC := EncodeOperand(a, Normal), EncodeOperand(b, bKind), EncodeOperand(c, cKind);
    if encA.TooLarge? || encB.TooLarge? || encC.TooLarge? then TooLarge else
      Ok([CreateABC(op, encA.value.0, encB.value.0, encC.value.0)] + Extra(a, Normal) + Extra(b, bKind) +
        Extra(c, cKind))
  }

  // ----- Unpacking -----

  /** An operand as the machine sees it, and the words that are left. */
  datatype Operand = Operand(value: nat, isConstant: bool, rest: seq<Word>)

  /** FETCH_EXTRA after the escape byte 255. */
  function FetchNormal(byte: nat, rest: seq<Word>): Result<Operand> {
    if byte != 255 then Ok(Operand(byte, false, rest))
    else if rest == [] then TooLarge else Ok(Operand(FieldAx(rest[0]), false, rest[1..]))
  }

  /** GET_RK: constants have the top bit set; 255 and 127 are the escapes. */
  function FetchRK(byte: nat, rest: seq<Word>): Result<Operand> {
    if byte == 255 || byte == 127 then
      if rest == [] then TooLarge else Ok(Operand(FieldAx(rest[0]), byte == 255, rest[1..]))
    else if byte >= 0x80 then Ok(Operand(byte - 0x80, true, rest))
    else Ok(Operand(byte, false, rest))
  }

  function Fetch(kind: Kind, byte: nat, rest: seq<Word>): Result<Operand> {
    if kind == Normal then FetchNormal(byte, rest) else FetchRK(byte, rest)
  }

  datatype Decoded = Decoded(op: nat, a: nat, b: Operand, c: Operand)

  /** The three operands in order. */
  function DecodeABC(words: seq<Word>, bKind: Kind, cKind: Kind): Result<Decoded> {
    if words == [] then TooLarge else
      var w := words[0];
      var a := FetchNormal(FieldA(w), words[1..]);
      if a.TooLarge? then TooLarge else
        var b := Fetch(bKind, FieldB(w), a.value.rest);
        if b.TooLarge? then TooLarge else
          var c := Fetch(cKind, FieldC(w), b.value.rest);
          if c.TooLarge? then TooLarge else Ok(Decoded(Opcode(w), a.value.value, b.value, c.value))
  }

  // ----- Round trips -----

  lemma FetchOperand(val: nat, kind: Kind, rest: seq<Word>)
    requires val < LIMIT
    ensures EncodeOperand(val, kind).Ok? && 0 <= EncodeOperand(val, kind).value.0 < 0x100
    ensures Fetch(kind, EncodeOperand(val, kind).value.0, Extra(val, kind) + rest) ==
      Ok(Operand(val, kind == ConstantIndex, rest))
  {
    FieldsAx(EXTRAARG, val);
    if Extra(val, kind) == [] {
      assert Extra(val, kind) + rest == rest;
    } else {
      assert (Extra(val, kind) + rest)[1..] == rest;
    }
  }

  /** Packing fails exactly for operands of more than 24 bits, and unpacking gives back what was packed exactly when no
      operand is negative. */
  lemma UnpackABC(op: nat, a: int, b: int, c: int, bKind: Kind, cKind: Kind, rest: seq<Word>)
    requires op < 0x100
    ensures PackedABC(op, a, b, c, bKind, cKind).TooLarge? <==> a >= LIMIT || b >= LIMIT || c >= LIMIT
    ensures PackedABC(op, a, b, c, bKind, cKind).Ok? ==>
      var d := DecodeABC(PackedABC(op, a, b, c, bKind, cKind).value + rest, bKind, cKind);
      (d.Ok? && d.value.op == op && d.value.a == a && d.value.b.value == b && d.value.c.value == c
        && d.value.b.isConstant == (bKind == ConstantIndex) && d.value.c.isConstant == (cKind == ConstantIndex)
        && d.value.c.rest == rest)
      <==> a >= 0 && b >= 0 && c >= 0
  {
    PackedIs(op, a, b, c, bKind, cKind);
    if 0 <= a < LIMIT && 0 <= b < LIMIT && 0 <= c < LIMIT {
      UnpackFitting(op, a, b, c, bKind, cKind, rest);
    }
    hide PackedABC, DecodeABC;
  }

  lemma UnpackFitting(op: nat, a: nat, b: nat, c: nat, bKind: Kind, cKind: Kind, rest: seq<Word>)
    requires op < 0x100 && a < LIMIT && b < LIMIT && c < LIMIT && PackedABC(op, a, b, c, bKind, cKind).Ok?
    ensures var d := DecodeABC(PackedABC(op, a, b, c, bKind, cKind).value + rest, bKind, cKind);
      d.Ok? && d.value.op == op && d.value.a == a && d.value.b.value == b &&
        d.value.b.isConstant == (bKind == ConstantIndex)
      && d.value.c == Operand(c, cKind == ConstantIndex, rest)
  {
    PackedIs(op, a, b, c, bKind, cKind);
    hide *;
    var ea, eb, ec :=
      EncodeOperand(a, Normal).value.0, EncodeOperand(b, bKind).value.0, EncodeOperand(c, cKind).value.0;
    var w := CreateABC(op, ea, eb, ec);
    var tailC := Extra(c, cKind) + rest;
    var tailB := Extra(b, bKind) + tailC;
    FetchOperand(a, Normal, tailB);
    FetchOperand(b, bKind, tailC);
    FetchOperand(c, cKind, rest);
    Bytes(op, ea, eb, ec);
    assert PackedABC(op, a, b, c, bKind, cKind).value + rest == [w] + (Extra(a, Normal) + tailB);
    DecodeFrom(w, Extra(a, Normal) + tailB, bKind, cKind, Operand(a, false, tailB),
      Operand(b, bKind == ConstantIndex, tailC),
               Operand(c, cKind == ConstantIndex, rest));
  }

  lemma PackedIs(op: nat, a: int, b: int, c: int, bKind: Kind, cKind: Kind)
    ensures PackedABC(op, a, b, c, bKind, cKind).TooLarge? <==> a >= LIMIT || b >= LIMIT || c >= LIMIT
    ensures a < LIMIT && b < LIMIT && c < LIMIT ==>
      EncodeOperand(a, Normal).Ok? && EncodeOperand(b, bKind).Ok? && EncodeOperand(c, cKind).Ok? &&
      PackedABC(op, a, b, c, bKind, cKind).value ==
        [CreateABC(op, EncodeOperand(a, Normal).value.0, EncodeOperand(b, bKind).value.0,
           EncodeOperand(c, cKind).value.0)]
        + Extra(a, Normal) + Extra(b, bKind) + Extra(c, cKind)
  {
    hide CreateABC, Extra;
  }

  /** Bytes are packed as they are. */
  lemma Bytes(op: nat, a: nat, b: nat, c: nat)
    requires op < 0x100 && a < 0x100 && b < 0x100 && c < 0x100
    ensures var w := CreateABC(op, a, b, c); Opcode(w) == op && FieldA(w) == a && FieldB(w) == b && FieldC(w) == c
  {
    FieldsABC(op, a, b, c);
  }

  /** Decoding operand by operand. */
  lemma DecodeFrom(w: Word, tail: seq<Word>, bKind: Kind, cKind: Kind, a: Operand, b: Operand, c: Operand)
    requires Fetch(Normal, FieldA(w), tail) == Ok(a) && Fetch(bKind, FieldB(w), a.rest) == Ok(b)
    requires Fetch(cKind, FieldC(w), b.rest) == Ok(c)
    ensures DecodeABC([w] + tail, bKind, cKind) == Ok(Decoded(Opcode(w), a.value, b, c))
  {
    hide Opcode, FieldA, FieldB, FieldC, FetchNormal, FetchRK;
    assert ([w] + tail)[1..] == tail;
  }

  /** The flag says whether there is an extra word. */
  lemma ExtraIs(val: int, kind: Kind)
    requires EncodeOperand(val, kind).Ok?
    ensures Extra(val, kind) == if EncodeOperand(val, kind).value.1 then [CreateAx(EXTRAARG, val)] else []
  {
  }

  // ----- Sixteen-bit operands and jumps -----

  /** buildInstABx */
  method BuildABx(op: nat, a: int, bx: int) returns (r: Result<seq<Word>>)
    ensures r == PackedABx(op, a, bx)
  {
    hide CreateABx, CreateAx;
    var encA := EncodeOperand(a, Normal);
    if encA.TooLarge? {
      return TooLarge;
    }
    var encBx, extBx := bx, false;
    if bx >= 0xFFFF {
      encBx, extBx := 0xFFFF, true;
    }
    if bx >= LIMIT {
      return TooLarge;
    }
    var words := [CreateABx(op, encA.value.0, encBx)];
    if encA.value.1 {
      words := words + [CreateAx(EXTRAARG, a)];
    }
    if extBx {
      words := words + [CreateAx(EXTRAARG, bx)];
    }
    assert words == PackedABx(op, a, bx).value;
    return Ok(words);
  }

  function ExtraBx(bx: int): seq<Word> {
    if bx >= 0xFFFF then [CreateAx(EXTRAARG, bx)] else []
  }

  function PackedABx(op: nat, a: int, bx: int): Result<seq<Word>> {
    if a >= LIMIT || bx >= LIMIT then TooLarge
    else Ok([CreateABx(op, if a >= 255 then 255 else a, if bx >= 0xFFFF then 0xFFFF else bx)] + Extra(a, Normal) +
      ExtraBx(bx))
  }

  datatype DecodedBx = DecodedBx(op: nat, a: nat, bx: nat, rest: seq<Word>)

  function DecodeABx(words: seq<Word>): Result<DecodedBx> {
    if words == [] then TooLarge else
      var a := FetchNormal(FieldA(words[0]), words[1..]);
      if a.TooLarge? then TooLarge else
        var bx, rest := FieldBx(words[0]), a.value.rest;
        if bx != 0xFFFF then Ok(DecodedBx(Opcode(words[0]), a.value.value, bx, rest))
        else if rest == [] then TooLarge
        else Ok(DecodedBx(Opcode(words[0]), a.value.value, FieldAx(rest[0]), rest[1..]))
  }

  /** As for UnpackABC. */
  lemma UnpackABx(op: nat, a: int, bx: int, rest: seq<Word>)
    requires op < 0x100
    ensures PackedABx(op, a, bx).TooLarge? <==> a >= LIMIT || bx >= LIMIT
    ensures PackedABx(op, a, bx).Ok? ==>
      var d := DecodeABx(PackedABx(op, a, bx).value + rest);
      (d.Ok? && d.value.op == op && d.value.a == a && d.value.bx == bx && d.value.rest == rest) <==> a >= 0 && bx >= 0
  {
    if 0 <= a < LIMIT && 0 <= bx < LIMIT {
      UnpackFittingBx(op, a, bx, rest);
    }
    hide CreateABx, DecodeABx, Extra, ExtraBx;
  }

  lemma UnpackFittingBx(op: nat, a: nat, bx: nat, rest: seq<Word>)
    requires op < 0x100 && a < LIMIT && bx < LIMIT
    ensures PackedABx(op, a, bx).Ok? && DecodeABx(PackedABx(op, a, bx).value + rest) == Ok(DecodedBx(op, a, bx, rest))
  {
    var byte, wide := if a >= 255 then 255 else a, if bx >= 0xFFFF then 0xFFFF else bx;
    hide *;
    PackedBxIs(op, a, bx);
    ByteIs(a);
    var w, tail := CreateABx(op, byte, wide), ExtraBx(bx) + rest;
    BytesBx(op, byte, wide);
    FetchOperand(a, Normal, tail);
    FetchIsNormal(byte, Extra(a, Normal) + tail);
    FetchExtraBx(bx, rest);
    assert PackedABx(op, a, bx).value + rest == [w] + (Extra(a, Normal) + tail);
    DecodeBxFrom(w, Extra(a, Normal) + tail, Operand(a, false, tail), bx, rest);
  }

  lemma PackedBxIs(op: nat, a: nat, bx: nat)
    requires a < LIMIT && bx < LIMIT
    ensures PackedABx(op, a, bx) ==
      Ok([CreateABx(op, if a >= 255 then 255 else a, if bx >= 0xFFFF then 0xFFFF else bx)] + Extra(a, Normal) +
        ExtraBx(bx))
  {
  }

  lemma ByteIs(a: nat)
    requires a < LIMIT
    ensures EncodeOperand(a, Normal).Ok? && EncodeOperand(a, Normal).value.0 == if a >= 255 then 255 else a
  {
  }

  lemma FetchIsNormal(byte: nat, rest: seq<Word>)
    ensures Fetch(Normal, byte, rest) == FetchNormal(byte, rest)
  {
  }

  lemma DecodeBxFrom(w: Word, tail: seq<Word>, a: Operand, bx: nat, rest: seq<Word>)
    requires FetchNormal(FieldA(w), tail) == Ok(a)
    requires if FieldBx(w) == 0xFFFF then a.rest != [] && bx == FieldAx(a.rest[0]) && rest == a.rest[1..]
             else bx == FieldBx(w) && rest == a.rest
    ensures DecodeABx([w] + tail) == Ok(DecodedBx(Opcode(w), a.value, bx, rest))
  {
    hide Opcode, FieldA, FieldBx, FieldAx, FetchNormal;
    assert ([w] + tail)[1..] == tail;
  }

  lemma BytesBx(op: nat, a: nat, bx: nat)
    requires op < 0x100 && a < 0x100 && bx < 0x10000
    ensures var w := CreateABx(op, a, bx); Opcode(w) == op && FieldA(w) == a && FieldBx(w) == bx
  {
    FieldsABx(op, a, bx);
  }

  lemma FetchExtraBx(bx: nat, rest: seq<Word>)
    requires bx < LIMIT
    ensures if bx >= 0xFFFF
            then (ExtraBx(bx) + rest) != [] && FieldAx((ExtraBx(bx) + rest)[0]) == bx &&
                 (ExtraBx(bx) + rest)[1..] == rest
            else ExtraBx(bx) + rest == rest
  {
    FieldsAx(EXTRAARG, bx);
  }

  /** buildInstAsBx: conditional jumps. */
  method BuildAsBx(op: nat, a: int, sbx: int) returns (r: Result<seq<Word>>)
    ensures r == PackedAsBx(op, a, sbx)
  {
    hide CreateABx, CreateAx;
    var encA := EncodeOperand(a, Normal);
    if encA.TooLarge? {
      return TooLarge;
    }
    if sbx < -32767 || sbx > 32767 {
      return TooLarge;
    }
    var words := [CreateABx(op, encA.value.0, sbx + 0x7FFF)];
    if encA.value.1 {
      words := words + [CreateAx(EXTRAARG, a)];
    }
    assert words == PackedAsBx(op, a, sbx).value;
    return Ok(words);
  }

  function PackedAsBx(op: nat, a: int, sbx: int): Result<seq<Word>> {
    if a >= LIMIT || sbx < -32767 || sbx > 32767 then TooLarge
    else Ok([CreateABx(op, if a >= 255 then 255 else a, sbx + 0x7FFF)] + Extra(a, Normal))
  }

  /** Where a conditional jump goes when it is taken: the displacement counts from behind its words. */
  function TakenFrom(words: seq<Word>, at: nat): Result<int>
    requires words != []
  {
    var a := FetchNormal(FieldA(words[0]), words[1..]);
    if a.TooLarge? then TooLarge else Ok(at + |words| - |a.value.rest| + SignedBx(words[0]))
  }

  /** A packed conditional jump lands at its displacement behind itself, and its sixteen bits never look like the
   * escape. */
  lemma JumpLands(op: nat, a: nat, sbx: int, at: nat, rest: seq<Word>)
    requires op < 0x100 && a < LIMIT && -32767 <= sbx <= 32767
    ensures var words := PackedAsBx(op, a, sbx).value;
      && Opcode(words[0]) == op && FieldBx(words[0]) != 0xFFFF
      && TakenFrom(words + rest, at) == Ok(at + |words| + sbx)
  {
    var words := PackedAsBx(op, a, sbx).value;
    FieldsABx(op, if a >= 255 then 255 else a, sbx + 0x7FFF);
    FetchOperand(a, Normal, rest);
    hide CreateABx, Opcode, FieldA, FieldBx, FetchNormal, Extra;
    assert (words + rest)[1..] == Extra(a, Normal) + rest;
    assert (words + rest)[0] == words[0];
  }

  /** CREATE_sAx and GET_sAx: the displacement survives exactly in the range of 24 bits. */
  lemma LongJump(op: nat, sax: int)
    requires op < 0x100
    ensures SignedAx(CreateAx(op, sax + 0x7FFFFF)) == sax <==> -8388607 <= sax <= 8388608
  {
    FieldsAx(op, sax + 0x7FFFFF);
  }
}
