/**
 * The BITS transmission decoder: a hexadecimal string is expanded into a
 * bit string, a tree of packets is parsed from it by recursive descent,
 * and the tree is summarised by a version checksum and evaluated as an
 * expression.
 *
 * A packet starts with a 3-bit version and a 3-bit type id.  Type 4 is a
 * literal whose value follows as 5-bit groups, each a continuation flag
 * and a 4-bit payload.  Every other type is an operator: one length-type
 * bit selects either a 15-bit total length of the sub-packets in bits or
 * an 11-bit count of sub-packets, and the sub-packets follow.
 */
module PacketDecoder {
  import opened Common

  type Bits = seq<bool>

  /** A parsed packet; a literal never has sub-packets and an operator never has a literal. */
  datatype Packet =
    | Literal(version: nat, value: nat)
    | Operator(version: nat, typeId: nat, children: seq<Packet>)

  const LiteralTypeId: nat := 4

  function TypeId(p: Packet): nat
  {
    if p.Literal? then LiteralTypeId else p.typeId
  }

  function Pow2(n: nat): (r: nat)
    ensures r >= 1
  {
    if n == 0 then 1 else 2 * Pow2(n - 1)
  }

  lemma {:induction false} Pow2Add(a: nat, b: nat)
    ensures Pow2(a + b) == Pow2(a) * Pow2(b)
    decreases b
  {
    if b > 0 {
      Pow2Add(a, b - 1);
    }
  }

  // ---------------------------------------------------------------------
  // Binary numbers

  /** The big-endian value of a bit string; the empty string reads as 0. */
  function BitsToNat(b: Bits): (r: nat)
    ensures r < Pow2(|b|)
  {
    if |b| == 0 then 0 else 2 * BitsToNat(b[..|b| - 1]) + (if b[|b| - 1] then 1 else 0)
  }

  /** The `w` low bits of `v`, most significant first. */
  function NatToBits(v: nat, w: nat): (r: Bits)
    ensures |r| == w
  {
    if w == 0 then [] else NatToBits(v / 2, w - 1) + [v % 2 == 1]
  }

  lemma {:induction false} BitsToNatOfNatToBits(v: nat, w: nat)
    requires v < Pow2(w)
    ensures BitsToNat(NatToBits(v, w)) == v
    decreases w
  {
    if w > 0 {
      var r := NatToBits(v, w);
      NatToBitsStep(v, w);
      BitsToNatStep(r);
      hide *;
      BitsToNatOfNatToBits(v / 2, w - 1);
    }
  }

  lemma {:induction false} NatToBitsOfBitsToNat(b: Bits)
    ensures NatToBits(BitsToNat(b), |b|) == b
    decreases |b|
  {
    if |b| > 0 {
      var init := b[..|b| - 1];
      BitsToNatStep(b);
      NatToBitsStep(BitsToNat(b), |b|);
      hide *;
      NatToBitsOfBitsToNat(init);
      assert b == init + [b[|b| - 1]];
    }
  }

  /** One step of `NatToBits`: the low bit goes last, and the rest fits one bit fewer. */
  lemma NatToBitsStep(v: nat, w: nat)
    requires w > 0
    ensures NatToBits(v, w) == NatToBits(v / 2, w - 1) + [v % 2 == 1]
    ensures NatToBits(v, w)[..w - 1] == NatToBits(v / 2, w - 1)
    ensures v < Pow2(w) ==> v / 2 < Pow2(w - 1)
  {
    var r := NatToBits(v, w);
    assert r[..w - 1] == NatToBits(v / 2, w - 1);
  }

  /** One step of `BitsToNat`: twice the value of the prefix plus the last bit. */
  lemma BitsToNatStep(b: Bits)
    requires |b| > 0
    ensures BitsToNat(b) == 2 * BitsToNat(b[..|b| - 1]) + (if b[|b| - 1] then 1 else 0)
    ensures BitsToNat(b) / 2 == BitsToNat(b[..|b| - 1])
    ensures BitsToNat(b) % 2 == 1 <==> b[|b| - 1]
  {
  }

  /** Reading a concatenation: the high part is shifted by the width of the low part. */
  lemma {:induction false} BitsToNatAppend(a: Bits, b: Bits)
    ensures BitsToNat(a + b) == BitsToNat(a) * Pow2(|b|) + BitsToNat(b)
    decreases |b|
  {
    if |b| == 0 {
      assert a + b == a;
    } else {
      var b' := b[..|b| - 1];
      var last := b[|b| - 1];
      assert (a + b)[..|a + b| - 1] == a + b';
      assert (a + b)[|a + b| - 1] == last;
      BitsToNatAppend(a, b');
      ShiftIn(BitsToNat(a), BitsToNat(b'), Pow2(|b'|), if last then 1 else 0);
    }
  }

  lemma ShiftIn(x: int, y: int, p: int, c: int)
    ensures 2 * (x * p + y) + c == x * (2 * p) + (2 * y + c)
  {
  }

  // ---------------------------------------------------------------------
  // Hexadecimal expansion

  /** The value of one upper-case hexadecimal digit; any other character has none. */
  function HexDigitValue(c: char): (r: Option<nat>)
    ensures r.Some? <==> ('0' <= c <= '9' || 'A' <= c <= 'F')
    ensures r.Some? ==> r.value < 16
  {
    if '0' <= c <= '9' then Some(c as nat - '0' as nat)
    else if 'A' <= c <= 'F' then Some(c as nat - 'A' as nat + 10)
    else None
  }

  predicate IsHexDigit(c: char)
  {
    HexDigitValue(c).Some?
  }

  function Nibble(v: nat): Bits
  {
    NatToBits(v, 4)
  }

  /**
   * Each hex digit replaced by its 4-bit binary form, most significant bit
   * first; a character outside the table makes the lookup throw (`None`).
   */
  function HexToBits(hex: string): (r: Option<Bits>)
    ensures r.Some? <==> forall i :: 0 <= i < |hex| ==> IsHexDigit(hex[i])
    ensures r.Some? ==> |r.value| == 4 * |hex|
    ensures r.Some? ==> forall i :: 0 <= i < |hex| ==>
      r.value[4 * i..4 * i + 4] == Nibble(HexDigitValue(hex[i]).value)
  {
    if |hex| == 0 then Some([])
    else
      match HexDigitValue(hex[|hex| - 1])
      case None => None
      case Some(d) =>
        match HexToBits(hex[..|hex| - 1])
        case None => None
        case Some(front) =>
          var r := front + Nibble(d);
          assert forall i :: 0 <= i < |hex| - 1 ==> r[4 * i..4 * i + 4] == front[4 * i..4 * i + 4];
          assert r[4 * (|hex| - 1)..4 * (|hex| - 1) + 4] == Nibble(d);
          Some(r)
  }

  /** The number a hexadecimal string denotes, as the reference for the expansion. */
  function HexToNat(hex: string): nat
    requires forall i :: 0 <= i < |hex| ==> IsHexDigit(hex[i])
  {
    if |hex| == 0 then 0
    else
      assert IsHexDigit(hex[|hex| - 1]);
      16 * HexToNat(hex[..|hex| - 1]) + HexDigitValue(hex[|hex| - 1]).value
  }

  /** The expanded bit string reads back as the number the hex string denotes. */
  lemma {:induction false} HexToBitsValue(hex: string)
    requires forall i :: 0 <= i < |hex| ==> IsHexDigit(hex[i])
    ensures HexToBits(hex).Some?
    ensures BitsToNat(HexToBits(hex).value) == HexToNat(hex)
    decreases |hex|
  {
    if |hex| > 0 {
      assert IsHexDigit(hex[|hex| - 1]);
      var d := HexDigitValue(hex[|hex| - 1]).value;
      var init := hex[..|hex| - 1];
      HexToBitsValue(init);
      var front := HexToBits(init).value;
      assert HexToBits(hex).value == front + Nibble(d);
      BitsToNatAppend(front, Nibble(d));
      BitsToNatOfNatToBits(d, 4);
      assert Pow2(4) == 16;
      assert BitsToNat(front + Nibble(d)) == BitsToNat(front) * 16 + d;
    }
  }

  // ---------------------------------------------------------------------
  // Literal groups

  /** Groups as the stream carries them: 5 bits each, flag set on all but the last. */
  predicate WellFormedGroups(gs: seq<Bits>)
  {
    && |gs| >= 1
    && (forall i :: 0 <= i < |gs| ==> |gs[i]| == 5)
    && (forall i :: 0 <= i < |gs| - 1 ==> gs[i][0])
    && !gs[|gs| - 1][0]
  }

  /**
   * Reads 5-bit groups from position `pos` until one whose leading bit is
   * 0.  A stream that ends inside a group is outside what the program
   * handles (`None`).
   */
  function FetchLiteralGroups(b: Bits, pos: nat): (r: Option<seq<Bits>>)
    ensures r.Some? ==> WellFormedGroups(r.value)
    ensures r.Some? ==> pos + 5 * |r.value| <= |b| && Flatten(r.value) == b[pos..pos + 5 * |r.value|]
    decreases |b| - pos
  {
    if pos + 5 > |b| then None
    else if !b[pos] then
      assert Flatten([b[pos..pos + 5]]) == b[pos..pos + 5] + Flatten([]);
      Some([b[pos..pos + 5]])
    else
      match FetchLiteralGroups(b, pos + 5)
      case None => None
      case Some(gs) =>
        var r := [b[pos..pos + 5]] + gs;
        assert r[1..] == gs;
        SliceConcat(b, pos, pos + 5, pos + 5 + 5 * |gs|);
        assert 5 * |r| == 5 + 5 * |gs|;
        Some(r)
  }

  lemma SliceConcat<T>(s: seq<T>, i: nat, j: nat, k: nat)
    requires i <= j <= k <= |s|
    ensures s[i..k] == s[i..j] + s[j..k]
  {
  }

  /** The groups with their leading flag bits removed, concatenated. */
  function Payload(gs: seq<Bits>): Bits
    requires forall i :: 0 <= i < |gs| ==> |gs[i]| >= 1
  {
    if |gs| == 0 then [] else Payload(gs[..|gs| - 1]) + gs[|gs| - 1][1..]
  }

  /** The literal a list of groups encodes: the big-endian number of the payloads. */
  function ConvertLiteralGroups(gs: seq<Bits>): nat
    requires forall i :: 0 <= i < |gs| ==> |gs[i]| >= 1
  {
    BitsToNat(Payload(gs))
  }

  /** The groups the stream uses for `v`; `last` marks the group that ends the literal. */
  function LiteralGroups(v: nat, last: bool): (gs: seq<Bits>)
    ensures |gs| >= 1
    ensures forall i :: 0 <= i < |gs| ==> |gs[i]| == 5
    ensures forall i :: 0 <= i < |gs| - 1 ==> gs[i][0]
    ensures gs[|gs| - 1][0] == !last
  {
    if v < 16 then [[!last] + Nibble(v)] else LiteralGroups(v / 16, false) + [[!last] + Nibble(v % 16)]
  }

  /** Decoding the groups of `v` gives `v` back. */
  lemma {:induction false} ConvertLiteralGroupsOfLiteralGroups(v: nat, last: bool)
    ensures ConvertLiteralGroups(LiteralGroups(v, last)) == v
    decreases v
  {
    hide *;
    var g := [!last] + Nibble(v % 16);
    LiteralGroupsStep(v, last);
    BitsToNatOfNibble(v % 16);
    ConvertLiteralGroupsDef(LiteralGroups(v, last));
    if v >= 16 {
      var front := LiteralGroups(v / 16, false);
      ConvertLiteralGroupsDef(front);
      PayloadSnoc(front, g);
      ConvertLiteralGroupsOfLiteralGroups(v / 16, false);
      BitsToNatAppend(Payload(front), Nibble(v % 16));
      ConvertLiteralGroupsStep(Payload(front), Nibble(v % 16), v);
    } else {
      PayloadSnoc([], g);
    }
  }

  /** How `LiteralGroups` peels the low nibble. */
  lemma LiteralGroupsStep(v: nat, last: bool)
    ensures v >= 16 ==> LiteralGroups(v, last) == LiteralGroups(v / 16, false) + [[!last] + Nibble(v % 16)]
    ensures v < 16 ==> LiteralGroups(v, last) == [] + [[!last] + Nibble(v % 16)] && v % 16 == v
    ensures ([!last] + Nibble(v % 16))[1..] == Nibble(v % 16) && |[!last] + Nibble(v % 16)| == 5
    ensures forall i :: 0 <= i < |LiteralGroups(v / 16, false)| ==> |LiteralGroups(v / 16, false)[i]| == 5
    ensures forall i :: 0 <= i < |LiteralGroups(v, last)| ==> |LiteralGroups(v, last)[i]| == 5
  {
    assert ([!last] + Nibble(v % 16))[1..] == Nibble(v % 16);
  }

  lemma ConvertLiteralGroupsDef(gs: seq<Bits>)
    requires forall i :: 0 <= i < |gs| ==> |gs[i]| == 5
    ensures ConvertLiteralGroups(gs) == BitsToNat(Payload(gs))
  {
  }

  lemma PayloadSnoc(front: seq<Bits>, g: Bits)
    requires forall i :: 0 <= i < |front| ==> |front[i]| >= 1
    requires |g| >= 1
    ensures Payload(front + [g]) == Payload(front) + g[1..]
    ensures |front| == 0 ==> Payload(front + [g]) == g[1..]
  {
    assert (front + [g])[..|front|] == front;
  }

  lemma BitsToNatOfNibble(d: nat)
    requires d < 16
    ensures BitsToNat(Nibble(d)) == d && |Nibble(d)| == 4 && Pow2(4) == 16
  {
    assert Pow2(4) == 16;
    BitsToNatOfNatToBits(d, 4);
  }

  lemma ConvertLiteralGroupsStep(x: Bits, y: Bits, v: nat)
    requires BitsToNat(x) == v / 16 && BitsToNat(y) == v % 16 && Pow2(|y|) == 16
    ensures BitsToNat(x) * Pow2(|y|) + BitsToNat(y) == v
  {
  }

  /** A slice that equals a concatenation splits into slices equal to its parts. */
  lemma SliceSplit(b: Bits, pos: nat, x: Bits, y: Bits)
    requires pos + |x| + |y| <= |b| && b[pos..pos + |x| + |y|] == x + y
    ensures b[pos..pos + |x|] == x
    ensures b[pos + |x|..pos + |x| + |y|] == y
  {
    assert b[pos..pos + |x|] == b[pos..pos + |x| + |y|][..|x|];
    assert b[pos + |x|..pos + |x| + |y|] == b[pos..pos + |x| + |y|][|x|..];
  }

  /** The reader stops exactly after a well-formed list of groups. */
  lemma {:induction false} FetchLiteralGroupsOfFlatten(gs: seq<Bits>, b: Bits, pos: nat)
    requires WellFormedGroups(gs)
    requires pos + |Flatten(gs)| <= |b| && b[pos..pos + |Flatten(gs)|] == Flatten(gs)
    ensures FetchLiteralGroups(b, pos) == Some(gs)
    decreases |gs|
  {
    var tail := Flatten(gs[1..]);
    assert Flatten(gs) == gs[0] + tail;
    SliceSplit(b, pos, gs[0], tail);
    assert b[pos] == gs[0][0];
    if |gs| == 1 {
      assert gs == [gs[0]];
    } else {
      FetchLiteralGroupsOfFlatten(gs[1..], b, pos + 5);
      assert [gs[0]] + gs[1..] == gs;
    }
  }

  // ---------------------------------------------------------------------
  // Parsing

  /** A packet the parser can produce: 3-bit fields, and no operator claims the literal type. */
  predicate WellTyped(p: Packet)
  {
    match p
    case Literal(v, _) => v < 8
    case Operator(v, t, cs) =>
      v < 8 && t < 8 && t != LiteralTypeId && forall i :: 0 <= i < |cs| ==> WellTyped(cs[i])
  }

  /** The number held in the `width` bits at `start`. */
  function Field(b: Bits, start: nat, width: nat): (r: nat)
    requires start + width <= |b|
    ensures r < Pow2(width)
  {
    BitsToNat(b[start..start + width])
  }

  /**
   * Parses one packet starting at bit `pos` and returns it with the
   * position just after it; the bits it took are the difference.  A stream
   * that runs out before the packet is complete is outside what the
   * program handles (`None`).
   */
  function ParsePacket(b: Bits, pos: nat): (r: Option<(Packet, nat)>)
    ensures r.Some? ==> pos + 6 <= r.value.1 <= |b|
    decreases |b| - pos, 1
  {
    if pos + 6 > |b| then None
    else if Field(b, pos + 3, 3) == LiteralTypeId then ParseLiteral(b, pos)
    else ParseOperator(b, pos)
  }

  /** A literal packet: its groups follow the 6 header bits. */
  function ParseLiteral(b: Bits, pos: nat): (r: Option<(Packet, nat)>)
    requires pos + 6 <= |b|
    ensures r.Some? ==> pos + 6 <= r.value.1 <= |b|
  {
    match FetchLiteralGroups(b, pos + 6)
    case None => None
    case Some(gs) => Some((Literal(Field(b, pos, 3), ConvertLiteralGroups(gs)), pos + 6 + 5 * |gs|))
  }

  /** An operator packet: the length-type bit, the framing field, then the sub-packets. */
  function ParseOperator(b: Bits, pos: nat): (r: Option<(Packet, nat)>)
    requires pos + 6 <= |b|
    ensures r.Some? ==> pos + 6 <= r.value.1 <= |b|
    decreases |b| - pos, 0
  {
    var version, typeId := Field(b, pos, 3), Field(b, pos + 3, 3);
    if pos + 7 > |b| then None
    else if !b[pos + 6] then
      if pos + 22 > |b| then None
      else
        match ParseByLength(b, pos + 22, Field(b, pos + 7, 15))
        case None => None
        case Some((cs, end)) => Some((Operator(version, typeId, cs), end))
    else
      if pos + 18 > |b| then None
      else
        match ParseByCount(b, pos + 18, Field(b, pos + 7, 11))
        case None => None
        case Some((cs, end)) => Some((Operator(version, typeId, cs), end))
  }

  /**
   * Length type 0: parses sub-packets while fewer than `remaining` bits
   * have been taken; a last sub-packet that runs past the length is not
   * detected.
   */
  function ParseByLength(b: Bits, pos: nat, remaining: int): (r: Option<(seq<Packet>, nat)>)
    requires pos <= |b|
    ensures r.Some? ==> pos <= r.value.1 <= |b|
    decreases |b| - pos, 2
  {
    if remaining <= 0 then Some(([], pos))
    else
      match ParsePacket(b, pos)
      case None => None
      case Some((p, next)) =>
        match ParseByLength(b, next, remaining - (next - pos))
        case None => None
        case Some((cs, end)) => Some(([p] + cs, end))
  }

  /** Length type 1: parses exactly `count` sub-packets. */
  function ParseByCount(b: Bits, pos: nat, count: nat): (r: Option<(seq<Packet>, nat)>)
    requires pos <= |b|
    ensures r.Some? ==> pos <= r.value.1 <= |b|
    decreases |b| - pos, 2
  {
    if count == 0 then Some(([], pos))
    else
      match ParsePacket(b, pos)
      case None => None
      case Some((p, next)) =>
        match ParseByCount(b, next, count - 1)
        case None => None
        case Some((cs, end)) => Some(([p] + cs, end))
  }

  /**
   * The header fields of a parsed packet are the first two 3-bit numbers,
   * and the bits it took are exactly its header, framing and body: a
   * literal takes 6 bits plus 5 per group, an operator 22 or 18 bits plus
   * what its sub-packets take.
   */
  lemma ParsePacketFields(b: Bits, pos: nat)
    requires ParsePacket(b, pos).Some?
    ensures var (p, end) := ParsePacket(b, pos).value;
      && p.version == Field(b, pos, 3) < 8
      && TypeId(p) == Field(b, pos + 3, 3) < 8
      && (p.Literal? <==> TypeId(p) == LiteralTypeId)
      && (p.Literal? ==> exists gs :: FetchLiteralGroups(b, pos + 6) == Some(gs) && end == pos + 6 + 5 * |gs|)
      && (p.Operator? ==> pos + 18 <= |b| && (!b[pos + 6] ==> pos + 22 <= |b|))
      && (p.Operator? && !b[pos + 6] ==>
            ParseByLength(b, pos + 22, Field(b, pos + 7, 15)) == Some((p.children, end)))
      && (p.Operator? && b[pos + 6] ==>
            ParseByCount(b, pos + 18, Field(b, pos + 7, 11)) == Some((p.children, end)))
  {
    assert Pow2(3) == 8;
  }

  /** Type 0 framing reads at least the announced length, at least 6 bits per sub-packet. */
  lemma {:induction false} ParseByLengthConsumed(b: Bits, pos: nat, remaining: int)
    requires pos <= |b|
    requires ParseByLength(b, pos, remaining).Some?
    ensures var (cs, end) := ParseByLength(b, pos, remaining).value;
      && end - pos >= remaining
      && end - pos >= 6 * |cs|
      && (remaining <= 0 ==> cs == [] && end == pos)
    decreases |b| - pos
  {
    if remaining > 0 {
      var (p, next) := ParsePacket(b, pos).value;
      ParseByLengthConsumed(b, next, remaining - (next - pos));
    }
  }

  /** Type 1 framing reads exactly the announced number of sub-packets. */
  lemma {:induction false} ParseByCountConsumed(b: Bits, pos: nat, count: nat)
    requires pos <= |b|
    requires ParseByCount(b, pos, count).Some?
    ensures var (cs, end) := ParseByCount(b, pos, count).value;
      |cs| == count && end - pos >= 6 * count
    decreases count
  {
    if count > 0 {
      var (p, next) := ParsePacket(b, pos).value;
      ParseByCountConsumed(b, next, count - 1);
    }
  }

  /** Everything the parser builds has 3-bit fields and no operator of the literal type. */
  lemma {:induction false} ParsedWellTyped(b: Bits, pos: nat)
    requires ParsePacket(b, pos).Some?
    ensures WellTyped(ParsePacket(b, pos).value.0)
    decreases |b| - pos, 1
  {
    ParsePacketFields(b, pos);
    var (p, end) := ParsePacket(b, pos).value;
    if p.Operator? {
      if !b[pos + 6] {
        ParsedListWellTypedByLength(b, pos + 22, Field(b, pos + 7, 15));
      } else {
        ParsedListWellTypedByCount(b, pos + 18, Field(b, pos + 7, 11));
      }
    }
  }

  lemma {:induction false} ParsedListWellTypedByLength(b: Bits, pos: nat, remaining: int)
    requires pos <= |b|
    requires ParseByLength(b, pos, remaining).Some?
    ensures var cs := ParseByLength(b, pos, remaining).value.0;
      forall i :: 0 <= i < |cs| ==> WellTyped(cs[i])
    decreases |b| - pos, 2
  {
    if remaining > 0 {
      var (p, next) := ParsePacket(b, pos).value;
      ParsedWellTyped(b, pos);
      ParsedListWellTypedByLength(b, next, remaining - (next - pos));
    }
  }

  lemma {:induction false} ParsedListWellTypedByCount(b: Bits, pos: nat, count: nat)
    requires pos <= |b|
    requires ParseByCount(b, pos, count).Some?
    ensures var cs := ParseByCount(b, pos, count).value.0;
      forall i :: 0 <= i < |cs| ==> WellTyped(cs[i])
    decreases |b| - pos, 2
  {
    if count > 0 {
      var (p, next) := ParsePacket(b, pos).value;
      ParsedWellTyped(b, pos);
      ParsedListWellTypedByCount(b, next, count - 1);
    }
  }

  /** The packet a hex transmission holds, if it is well formed. */
  function Decode(hex: string): (r: Option<Packet>)
    ensures r.Some? ==> forall i :: 0 <= i < |hex| ==> IsHexDigit(hex[i])
    ensures r.Some? ==> WellTyped(r.value)
  {
    match HexToBits(hex)
    case None => None
    case Some(b) =>
      match ParsePacket(b, 0)
      case None => None
      case Some((p, _)) =>
        ParsedWellTyped(b, 0);
        Some(p)
  }

  // ---------------------------------------------------------------------
  // Encoding, the inverse of parsing

  /** Which length type an encoder writes for every operator. */
  datatype Framing = ByLength | ByCount

  function Header(version: nat, typeId: nat): Bits
  {
    NatToBits(version, 3) + NatToBits(typeId, 3)
  }

  function Encode(p: Packet, f: Framing): (r: Bits)
    ensures |r| >= 6
    decreases p, 1
  {
    match p
    case Literal(v, value) => Header(v, LiteralTypeId) + Flatten(LiteralGroups(value, true))
    case Operator(v, t, cs) =>
      var body := EncodeList(cs, f);
      if f == ByLength then Header(v, t) + [false] + NatToBits(|body|, 15) + body
      else Header(v, t) + [true] + NatToBits(|cs|, 11) + body
  }

  function EncodeList(cs: seq<Packet>, f: Framing): Bits
    decreases cs, 0
  {
    if |cs| == 0 then [] else Encode(cs[0], f) + EncodeList(cs[1..], f)
  }

  /** A packet whose fields fit the widths the encoder writes. */
  predicate Encodable(p: Packet, f: Framing)
    decreases p, 1
  {
    match p
    case Literal(v, _) => v < 8
    case Operator(v, t, cs) =>
      && v < 8 && t < 8 && t != LiteralTypeId
      && (if f == ByLength then |EncodeList(cs, f)| < Pow2(15) else |cs| < Pow2(11))
      && AllEncodable(cs, f)
  }

  predicate AllEncodable(cs: seq<Packet>, f: Framing)
    decreases cs, 0
  {
    |cs| > 0 ==> Encodable(cs[0], f) && AllEncodable(cs[1..], f)
  }

  /** `b` holds `e` from position `pos` on. */
  predicate HoldsAt(b: Bits, pos: nat, e: Bits)
  {
    pos + |e| <= |b| && b[pos..pos + |e|] == e
  }

  /** Where an encoded field sits, the parser reads back its value. */
  lemma FieldOfNatToBits(b: Bits, pos: nat, v: nat, w: nat)
    requires v < Pow2(w) && HoldsAt(b, pos, NatToBits(v, w))
    ensures Field(b, pos, w) == v
  {
    BitsToNatOfNatToBits(v, w);
  }

  lemma HeaderAt(b: Bits, pos: nat, v: nat, t: nat, tail: Bits)
    requires v < 8 && t < 8 && HoldsAt(b, pos, Header(v, t) + tail)
    ensures pos + 6 <= |b| && Field(b, pos, 3) == v && Field(b, pos + 3, 3) == t
    ensures HoldsAt(b, pos + 6, tail)
  {
    var x, y := NatToBits(v, 3), NatToBits(t, 3);
    assert Header(v, t) + tail == x + (y + tail);
    SliceSplit(b, pos, x, y + tail);
    SliceSplit(b, pos + 3, y, tail);
    assert Pow2(3) == 8;
    FieldOfNatToBits(b, pos, v, 3);
    FieldOfNatToBits(b, pos + 3, t, 3);
  }

  /**
   * Parsing an encoded packet, wherever it sits in the stream and whatever
   * follows it, recovers the packet and ends exactly after its encoding.
   */
  lemma {:induction false} ParseEncode(p: Packet, f: Framing, b: Bits, pos: nat)
    requires Encodable(p, f) && HoldsAt(b, pos, Encode(p, f))
    ensures ParsePacket(b, pos) == Some((p, pos + |Encode(p, f)|))
    decreases p, 2
  {
    hide *;
    match p
    case Literal(v, value) =>
      ParseEncodeLiteral(v, value, f, b, pos);
    case Operator(v, t, cs) =>
      if f == ByLength {
        ParseEncodeOperatorByLength(v, t, cs, b, pos);
      } else {
        ParseEncodeOperatorByCount(v, t, cs, b, pos);
      }
  }

  lemma ParseEncodeLiteral(v: nat, value: nat, f: Framing, b: Bits, pos: nat)
    requires Encodable(Literal(v, value), f) && HoldsAt(b, pos, Encode(Literal(v, value), f))
    ensures ParsePacket(b, pos) == Some((Literal(v, value), pos + |Encode(Literal(v, value), f)|))
  {
    hide *;
    var gs := LiteralGroups(value, true);
    EncodeLiteral(v, value, f);
    HeaderAt(b, pos, v, LiteralTypeId, Flatten(gs));
    LiteralGroupsWellFormed(value);
    FetchLiteralGroupsAt(gs, b, pos + 6);
    ConvertLiteralGroupsOfLiteralGroups(value, true);
    FlattenLength(gs);
    ParsePacketLiteral(b, pos, gs, v, value, pos + |Encode(Literal(v, value), f)|);
  }

  lemma {:induction false} ParseEncodeOperatorByLength(v: nat, t: nat, cs: seq<Packet>, b: Bits, pos: nat)
    requires Encodable(Operator(v, t, cs), ByLength) && HoldsAt(b, pos, Encode(Operator(v, t, cs), ByLength))
    ensures ParsePacket(b, pos) == Some((Operator(v, t, cs), pos + |Encode(Operator(v, t, cs), ByLength)|))
    decreases Operator(v, t, cs), 1
  {
    hide *;
    var body := EncodeList(cs, ByLength);
    var field := NatToBits(|body|, 15);
    EncodeOperator(v, t, cs, ByLength);
    HeaderAt(b, pos, v, t, [false] + (field + body));
    HoldsAtSplit(b, pos + 6, [false], field + body);
    HoldsAtBit(b, pos + 6, false);
    HoldsAtSplit(b, pos + 7, field, body);
    FieldOfNatToBits(b, pos + 7, |body|, 15);
    ParseEncodeByLength(cs, b, pos + 22);
    ParsePacketByLength(b, pos, cs, pos + 22 + |body|);
  }

  lemma {:induction false} ParseEncodeOperatorByCount(v: nat, t: nat, cs: seq<Packet>, b: Bits, pos: nat)
    requires Encodable(Operator(v, t, cs), ByCount) && HoldsAt(b, pos, Encode(Operator(v, t, cs), ByCount))
    ensures ParsePacket(b, pos) == Some((Operator(v, t, cs), pos + |Encode(Operator(v, t, cs), ByCount)|))
    decreases Operator(v, t, cs), 1
  {
    hide *;
    var body := EncodeList(cs, ByCount);
    var field := NatToBits(|cs|, 11);
    EncodeOperator(v, t, cs, ByCount);
    HeaderAt(b, pos, v, t, [true] + (field + body));
    HoldsAtSplit(b, pos + 6, [true], field + body);
    HoldsAtBit(b, pos + 6, true);
    HoldsAtSplit(b, pos + 7, field, body);
    FieldOfNatToBits(b, pos + 7, |cs|, 11);
    ParseEncodeByCount(cs, b, pos + 18);
    ParsePacketByCount(b, pos, cs, pos + 18 + |body|);
  }

  /** The shape of an encoded literal, and what its being encodable means. */
  lemma EncodeLiteral(v: nat, value: nat, f: Framing)
    ensures Encode(Literal(v, value), f) == Header(v, LiteralTypeId) + Flatten(LiteralGroups(value, true))
    ensures |Header(v, LiteralTypeId)| == 6 && LiteralTypeId < 8
    ensures Encodable(Literal(v, value), f) ==> v < 8
  {
  }

  /** The shape of an encoded operator, and what its being encodable means. */
  lemma EncodeOperator(v: nat, t: nat, cs: seq<Packet>, f: Framing)
    ensures f == ByLength ==>
      Encode(Operator(v, t, cs), f) == Header(v, t) + ([false] + (NatToBits(|EncodeList(cs, f)|, 15) + EncodeList(cs, f)))
    ensures f == ByCount ==>
      Encode(Operator(v, t, cs), f) == Header(v, t) + ([true] + (NatToBits(|cs|, 11) + EncodeList(cs, f)))
    ensures |Header(v, t)| == 6 && |NatToBits(|EncodeList(cs, f)|, 15)| == 15 && |NatToBits(|cs|, 11)| == 11
    ensures Encodable(Operator(v, t, cs), f) ==>
      && v < 8 && t < 8 && t != LiteralTypeId && AllEncodable(cs, f)
      && (f == ByLength ==> |EncodeList(cs, f)| < Pow2(15))
      && (f == ByCount ==> |cs| < Pow2(11))
  {
    EncodeOperatorShape(v, t, cs, f);
  }

  lemma EncodeOperatorShape(v: nat, t: nat, cs: seq<Packet>, f: Framing)
    ensures f == ByLength ==>
      Encode(Operator(v, t, cs), f) == Header(v, t) + ([false] + (NatToBits(|EncodeList(cs, f)|, 15) + EncodeList(cs, f)))
    ensures f == ByCount ==>
      Encode(Operator(v, t, cs), f) == Header(v, t) + ([true] + (NatToBits(|cs|, 11) + EncodeList(cs, f)))
  {
    hide EncodeList, Header, NatToBits, Encodable, AllEncodable;
    var body := EncodeList(cs, f);
    var h := Header(v, t);
    if f == ByLength {
      var x := NatToBits(|body|, 15);
      assert Encode(Operator(v, t, cs), f) == h + [false] + x + body;
      assert h + [false] + x + body == h + ([false] + (x + body));
    } else {
      var x := NatToBits(|cs|, 11);
      assert Encode(Operator(v, t, cs), f) == h + [true] + x + body;
      assert h + [true] + x + body == h + ([true] + (x + body));
    }
  }

  lemma HoldsAtBit(b: Bits, pos: nat, x: bool)
    requires HoldsAt(b, pos, [x])
    ensures pos < |b| && b[pos] == x
  {
    assert b[pos..pos + 1][0] == b[pos];
  }

  lemma LiteralGroupsWellFormed(v: nat)
    ensures WellFormedGroups(LiteralGroups(v, true))
  {
  }

  lemma FetchLiteralGroupsAt(gs: seq<Bits>, b: Bits, pos: nat)
    requires WellFormedGroups(gs) && HoldsAt(b, pos, Flatten(gs))
    ensures FetchLiteralGroups(b, pos) == Some(gs)
  {
    FetchLiteralGroupsOfFlatten(gs, b, pos);
  }

  /** What the parser does on a literal header, stated once so callers need not unfold it. */
  lemma ParsePacketLiteral(b: Bits, pos: nat, gs: seq<Bits>, v: nat, value: nat, end: nat)
    requires pos + 6 <= |b| && Field(b, pos + 3, 3) == LiteralTypeId
    requires FetchLiteralGroups(b, pos + 6) == Some(gs)
    requires Field(b, pos, 3) == v && ConvertLiteralGroups(gs) == value && end == pos + 6 + 5 * |gs|
    ensures ParsePacket(b, pos) == Some((Literal(v, value), end))
  {
  }

  lemma ParsePacketByLength(b: Bits, pos: nat, cs: seq<Packet>, end: nat)
    requires pos + 22 <= |b| && Field(b, pos + 3, 3) != LiteralTypeId && !b[pos + 6]
    requires ParseByLength(b, pos + 22, Field(b, pos + 7, 15)) == Some((cs, end))
    ensures ParsePacket(b, pos) == Some((Operator(Field(b, pos, 3), Field(b, pos + 3, 3), cs), end))
  {
  }

  lemma ParsePacketByCount(b: Bits, pos: nat, cs: seq<Packet>, end: nat)
    requires pos + 18 <= |b| && Field(b, pos + 3, 3) != LiteralTypeId && b[pos + 6]
    requires ParseByCount(b, pos + 18, Field(b, pos + 7, 11)) == Some((cs, end))
    ensures ParsePacket(b, pos) == Some((Operator(Field(b, pos, 3), Field(b, pos + 3, 3), cs), end))
  {
  }

  lemma {:induction false} ParseEncodeByLength(cs: seq<Packet>, b: Bits, pos: nat)
    requires AllEncodable(cs, ByLength) && HoldsAt(b, pos, EncodeList(cs, ByLength))
    ensures ParseByLength(b, pos, |EncodeList(cs, ByLength)|) == Some((cs, pos + |EncodeList(cs, ByLength)|))
    decreases cs, 0
  {
    hide *;
    if |cs| == 0 {
      ParseByLengthEmpty(cs, b, pos);
    } else {
      EncodeListCons(cs, ByLength);
      var head, tail := Encode(cs[0], ByLength), EncodeList(cs[1..], ByLength);
      HoldsAtSplit(b, pos, head, tail);
      ParseEncode(cs[0], ByLength, b, pos);
      ParseEncodeByLength(cs[1..], b, pos + |head|);
      ParseByLengthCons(b, pos, cs, |head|, |tail|);
    }
  }

  lemma {:induction false} ParseEncodeByCount(cs: seq<Packet>, b: Bits, pos: nat)
    requires AllEncodable(cs, ByCount) && HoldsAt(b, pos, EncodeList(cs, ByCount))
    ensures ParseByCount(b, pos, |cs|) == Some((cs, pos + |EncodeList(cs, ByCount)|))
    decreases cs, 0
  {
    hide *;
    if |cs| == 0 {
      ParseByCountEmpty(cs, b, pos);
    } else {
      EncodeListCons(cs, ByCount);
      var head, tail := Encode(cs[0], ByCount), EncodeList(cs[1..], ByCount);
      HoldsAtSplit(b, pos, head, tail);
      ParseEncode(cs[0], ByCount, b, pos);
      ParseEncodeByCount(cs[1..], b, pos + |head|);
      ParseByCountCons(b, pos, cs, |head|, |tail|);
    }
  }

  lemma ParseByLengthEmpty(cs: seq<Packet>, b: Bits, pos: nat)
    requires |cs| == 0 && HoldsAt(b, pos, EncodeList(cs, ByLength))
    ensures ParseByLength(b, pos, |EncodeList(cs, ByLength)|) == Some((cs, pos + |EncodeList(cs, ByLength)|))
  {
    assert cs == [];
  }

  lemma ParseByCountEmpty(cs: seq<Packet>, b: Bits, pos: nat)
    requires |cs| == 0 && HoldsAt(b, pos, EncodeList(cs, ByCount))
    ensures ParseByCount(b, pos, |cs|) == Some((cs, pos + |EncodeList(cs, ByCount)|))
  {
    assert cs == [];
  }

  /** One step of the encoder: the first packet's bits, then the rest's, and every packet fits. */
  lemma EncodeListCons(cs: seq<Packet>, f: Framing)
    requires |cs| > 0
    ensures EncodeList(cs, f) == Encode(cs[0], f) + EncodeList(cs[1..], f)
    ensures |Encode(cs[0], f)| >= 6
    ensures AllEncodable(cs, f) ==> Encodable(cs[0], f) && AllEncodable(cs[1..], f)
  {
  }

  lemma HoldsAtSplit(b: Bits, pos: nat, x: Bits, y: Bits)
    requires HoldsAt(b, pos, x + y)
    ensures HoldsAt(b, pos, x) && HoldsAt(b, pos + |x|, y)
  {
    SliceSplit(b, pos, x, y);
  }

  lemma ParseByLengthCons(b: Bits, pos: nat, cs: seq<Packet>, k: nat, n: nat)
    requires |cs| > 0 && k > 0
    requires ParsePacket(b, pos) == Some((cs[0], (pos + k) as nat))
    requires pos + k <= |b|
    requires ParseByLength(b, pos + k, n) == Some((cs[1..], pos + k + n))
    ensures ParseByLength(b, pos, k + n) == Some((cs, pos + k + n))
  {
    ConsSplit(cs);
  }

  lemma ParseByCountCons(b: Bits, pos: nat, cs: seq<Packet>, k: nat, n: nat)
    requires |cs| > 0
    requires ParsePacket(b, pos) == Some((cs[0], (pos + k) as nat))
    requires pos + k <= |b|
    requires ParseByCount(b, pos + k, |cs| - 1) == Some((cs[1..], pos + k + n))
    ensures ParseByCount(b, pos, |cs|) == Some((cs, pos + k + n))
  {
    ConsSplit(cs);
  }

  /** A whole transmission: decoding the hex form of an encoded packet gives the packet. */
  lemma DecodeEncoded(p: Packet, f: Framing, hex: string)
    requires Encodable(p, f)
    requires HexToBits(hex).Some? && HoldsAt(HexToBits(hex).value, 0, Encode(p, f))
    ensures Decode(hex) == Some(p)
  {
    ParseEncode(p, f, HexToBits(hex).value, 0);
  }

  lemma ConsSplit<T>(s: seq<T>)
    requires |s| > 0
    ensures [s[0]] + s[1..] == s
  {
  }

  lemma {:induction false} FlattenLength(gs: seq<Bits>)
    requires forall i :: 0 <= i < |gs| ==> |gs[i]| == 5
    ensures |Flatten(gs)| == 5 * |gs|
    decreases |gs|
  {
    if |gs| > 0 {
      FlattenLength(gs[1..]);
    }
  }

  // ---------------------------------------------------------------------
  // Checksum and evaluation

  /** The version of a packet plus the version sums of its sub-packets. */
  function VersionSum(p: Packet): nat
    decreases p, 1
  {
    match p
    case Literal(v, _) => v
    case Operator(v, _, cs) => v + VersionSumList(cs)
  }

  function VersionSumList(cs: seq<Packet>): nat
    decreases cs, 0
  {
    if |cs| == 0 then 0 else VersionSum(cs[0]) + VersionSumList(cs[1..])
  }

  /** Every packet of the tree, parents before children, left to right. */
  function Packets(p: Packet): (r: seq<Packet>)
    ensures |r| >= 1 && r[0] == p
    decreases p, 1
  {
    match p
    case Literal(_, _) => [p]
    case Operator(_, _, cs) => [p] + PacketsList(cs)
  }

  function PacketsList(cs: seq<Packet>): seq<Packet>
    decreases cs, 0
  {
    if |cs| == 0 then [] else Packets(cs[0]) + PacketsList(cs[1..])
  }

  function Versions(ps: seq<Packet>): (r: seq<int>)
    ensures |r| == |ps|
    ensures forall i :: 0 <= i < |ps| ==> r[i] == ps[i].version
  {
    if |ps| == 0 then [] else [ps[0].version] + Versions(ps[1..])
  }

  lemma {:induction false} VersionsAppend(a: seq<Packet>, b: seq<Packet>)
    ensures Versions(a + b) == Versions(a) + Versions(b)
  {
  }

  /** The checksum recurrence adds up exactly the versions of all packets in the tree. */
  lemma {:induction false} VersionSumIsSumOfVersions(p: Packet)
    ensures VersionSum(p) == Sum(Versions(Packets(p)))
    decreases p, 1
  {
    match p
    case Literal(v, _) =>
      assert Versions([p]) == [v];
      assert Sum([v]) == Sum([]) + v;
    case Operator(v, _, cs) =>
      VersionSumListIsSumOfVersions(cs);
      VersionsAppend([p], PacketsList(cs));
      assert Versions([p]) == [v];
      SumAppend([v], Versions(PacketsList(cs)));
      assert Sum([v]) == Sum([]) + v;
  }

  lemma {:induction false} VersionSumListIsSumOfVersions(cs: seq<Packet>)
    ensures VersionSumList(cs) == Sum(Versions(PacketsList(cs)))
    decreases cs, 0
  {
    if |cs| > 0 {
      VersionSumIsSumOfVersions(cs[0]);
      VersionSumListIsSumOfVersions(cs[1..]);
      VersionsAppend(Packets(cs[0]), PacketsList(cs[1..]));
      SumAppend(Versions(Packets(cs[0])), Versions(PacketsList(cs[1..])));
    }
  }

  /**
   * A tree the evaluator handles: minimum and maximum need a sub-packet and
   * the comparisons need two; otherwise the program reads past the end.
   */
  predicate Evaluable(p: Packet)
    decreases p
  {
    match p
    case Literal(_, _) => true
    case Operator(_, t, cs) =>
      && t != LiteralTypeId
      && (t == 2 || t == 3 ==> |cs| >= 1)
      && (5 <= t <= 7 ==> |cs| >= 2)
      && forall i :: 0 <= i < |cs| ==> Evaluable(cs[i])
  }

  function Product(s: seq<nat>): nat
  {
    if |s| == 0 then 1 else Product(s[..|s| - 1]) * s[|s| - 1]
  }

  function Min(s: seq<nat>): (r: nat)
    requires |s| >= 1
    ensures r in s && forall i :: 0 <= i < |s| ==> r <= s[i]
  {
    if |s| == 1 then s[0]
    else
      var m := Min(s[..|s| - 1]);
      assert m in s[..|s| - 1];
      if s[|s| - 1] < m then s[|s| - 1] else m
  }

  function Max(s: seq<nat>): (r: nat)
    requires |s| >= 1
    ensures r in s && forall i :: 0 <= i < |s| ==> r >= s[i]
  {
    if |s| == 1 then s[0]
    else
      var m := Max(s[..|s| - 1]);
      assert m in s[..|s| - 1];
      if s[|s| - 1] > m then s[|s| - 1] else m
  }

  function NatsToInts(s: seq<nat>): (r: seq<int>)
    ensures |r| == |s| && forall i :: 0 <= i < |s| ==> r[i] == s[i]
  {
    if |s| == 0 then [] else NatsToInts(s[..|s| - 1]) + [s[|s| - 1]]
  }

  /**
   * The value of the expression a packet tree denotes: type 0 sums, 1
   * multiplies, 2 and 3 take the minimum and maximum, 4 is the literal,
   * and 5, 6, 7 are 1 or 0 for greater, less and equal of the first two
   * sub-packets.
   */
  function Eval(p: Packet): (r: nat)
    requires Evaluable(p)
    ensures p.Literal? ==> r == p.value
    decreases p, 1
  {
    match p
    case Literal(_, value) => value
    case Operator(_, t, cs) =>
      var vs := EvalAll(cs);
      if t == 0 then SumNonNegative(NatsToInts(vs)); Sum(NatsToInts(vs)) as nat
      else if t == 1 then Product(vs)
      else if t == 2 then Min(vs)
      else if t == 3 then Max(vs)
      else if t == 5 then (if vs[0] > vs[1] then 1 else 0)
      else if t == 6 then (if vs[0] < vs[1] then 1 else 0)
      else if t == 7 then (if vs[0] == vs[1] then 1 else 0)
      else 0
  }

  /** Types 0 and 1 add up and multiply the values of the sub-packets. */
  lemma EvalArithmetic(v: nat, t: nat, cs: seq<Packet>)
    requires Evaluable(Operator(v, t, cs)) && t <= 1
    ensures t == 0 ==> Eval(Operator(v, t, cs)) == Sum(NatsToInts(EvalAll(cs)))
    ensures t == 1 ==> Eval(Operator(v, t, cs)) == Product(EvalAll(cs))
  {
  }

  /** Types 2 and 3 pick the least and the greatest value among the sub-packets. */
  lemma EvalMinMax(v: nat, t: nat, cs: seq<Packet>)
    requires Evaluable(Operator(v, t, cs)) && (t == 2 || t == 3)
    ensures exists i :: 0 <= i < |cs| && Eval(Operator(v, t, cs)) == Eval(cs[i])
    ensures t == 2 ==> forall i :: 0 <= i < |cs| ==> Eval(Operator(v, t, cs)) <= Eval(cs[i])
    ensures t == 3 ==> forall i :: 0 <= i < |cs| ==> Eval(Operator(v, t, cs)) >= Eval(cs[i])
  {
    var vs := EvalAll(cs);
    var r := Eval(Operator(v, t, cs));
    assert r in vs;
    var i :| 0 <= i < |vs| && vs[i] == r;
    assert r == Eval(cs[i]);
  }

  /**
   * Types 5, 6 and 7 are 1 exactly when the first sub-packet is greater
   * than, less than or equal to the second, and 0 otherwise; the unused
   * types above 7 give 0.
   */
  lemma EvalCompare(v: nat, t: nat, cs: seq<Packet>)
    requires Evaluable(Operator(v, t, cs)) && t >= 5
    ensures t <= 7 ==> Eval(Operator(v, t, cs)) <= 1
    ensures t == 5 ==> (Eval(Operator(v, t, cs)) == 1 <==> Eval(cs[0]) > Eval(cs[1]))
    ensures t == 6 ==> (Eval(Operator(v, t, cs)) == 1 <==> Eval(cs[0]) < Eval(cs[1]))
    ensures t == 7 ==> (Eval(Operator(v, t, cs)) == 1 <==> Eval(cs[0]) == Eval(cs[1]))
    ensures t > 7 ==> Eval(Operator(v, t, cs)) == 0
  {
  }

  function EvalAll(cs: seq<Packet>): (vs: seq<nat>)
    requires forall i :: 0 <= i < |cs| ==> Evaluable(cs[i])
    ensures |vs| == |cs|
    ensures forall i :: 0 <= i < |cs| ==> vs[i] == Eval(cs[i])
    decreases cs, 0
  {
    if |cs| == 0 then [] else [Eval(cs[0])] + EvalAll(cs[1..])
  }
}
