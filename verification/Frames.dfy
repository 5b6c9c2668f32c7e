/**
  UAVCAN frames and their CAN representation: a 29-bit identifier, the payload and a tail byte.

  `Compile` ORs shifted fields into the identifier, `Parse` shifts and masks them out again.
  The two are inverse to each other except on anonymous frames, where the upper fourteen bits of
  the data type ID are overwritten by the discriminator; the exact condition is proved.
 */
module Frames {
  import opened Bits
  import Crc

  datatype Option<+T> = None | Some(value: T)

  const MAX_NODE_ID := 127
  const BROADCAST := 0
  const PAYLOAD_CAPACITY := 7
  const NUM_TIDS := 32

  type TransferID = t: nat | t < NUM_TIDS

  datatype TransferType = ServiceResponse | ServiceRequest | MessageBroadcast

  datatype Frame = Frame(
    priority: nat,
    transferType: TransferType,
    dataTypeId: nat,
    src: nat,
    dst: nat,
    tid: TransferID,
    startOfTransfer: bool,
    endOfTransfer: bool,
    toggle: bool,
    payload: seq<Byte>)
  {
    predicate IsValid() {
      && !(startOfTransfer && toggle)
      && src <= MAX_NODE_ID && dst <= MAX_NODE_ID
      && (src != BROADCAST ==> src != dst)
      && (transferType.MessageBroadcast? <==> dst == BROADCAST)
      && (src == BROADCAST ==> startOfTransfer && endOfTransfer && transferType.MessageBroadcast?)
      && |payload| <= PAYLOAD_CAPACITY
      && dataTypeId <= (if transferType.MessageBroadcast? then 65535 else 255)
      && priority < 32
    }
  }

  /** A frame as the CAN driver sees it: EFF, RTR and ERR flags, 29 identifier bits, data bytes. */
  datatype CanFrame = CanFrame(id: Word32, data: seq<Byte>)

  // ----- Identifier fields

  const FLAG_EFF: nat := 31

  /** The low `width` bits of `field`, shifted left by `offset`. */
  function BitPack(offset: nat, width: nat, field: nat): Word32
    requires offset + width <= 32
  {
    Zeros(32 - offset - width) + ToBits(field, width) + Zeros(offset)
  }

  function BitUnpack(offset: nat, width: nat, id: Word32): nat
    requires offset + width <= 32
  {
    Num(id[32 - offset - width..32 - offset])
  }

  // ----- Compilation

  function TailByte(f: Frame): Byte {
    Or(Or(Or(ToBits(f.tid, 8),
             if f.startOfTransfer then Zeros(0) + [true] + Zeros(7) else Zeros(8)),
          if f.endOfTransfer then Zeros(1) + [true] + Zeros(6) else Zeros(8)),
       if f.toggle then Zeros(2) + [true] + Zeros(5) else Zeros(8))
  }

  function BaseId(f: Frame): Word32 {
    var common := Or(Or(BitPack(FLAG_EFF, 1, 1), BitPack(0, 7, f.src)), BitPack(24, 5, f.priority));
    if f.transferType.MessageBroadcast? then
      Or(common, Or(BitPack(7, 1, 0), BitPack(8, 16, f.dataTypeId)))
    else
      Or(common, Or(Or(Or(BitPack(7, 1, 1), BitPack(8, 7, f.dst)),
                       BitPack(15, 1, if f.transferType.ServiceRequest? then 1 else 0)),
                    BitPack(16, 8, f.dataTypeId)))
  }

  /** The fourteen bits that replace the source address of an anonymous frame in arbitration. */
  function Discriminator(data: seq<Byte>): Word32 {
    Zeros(8) + Crc.Update(Crc.Initial(), data)[2..] + Zeros(10)
  }

  function Compile(f: Frame): Option<CanFrame> {
    if !f.IsValid() then None
    else
      var data := f.payload + [TailByte(f)];
      var id := if f.src == BROADCAST then Or(BaseId(f), Discriminator(data)) else BaseId(f);
      Some(CanFrame(id, data))
  }

  // ----- Parsing

  function Parse(c: CanFrame): Option<Frame> {
    if !c.id[0] || c.id[1] || c.id[2] then None
    else if |c.data| > 8 || |c.data| < 1 then None
    else
      var src := BitUnpack(0, 7, c.id);
      var isService := BitUnpack(7, 1, c.id) != 0;
      var message := BitUnpack(8, 16, c.id);
      var tail := c.data[|c.data| - 1];
      TidInRange(tail);
      var f := Frame(
        BitUnpack(24, 5, c.id),
        if !isService then MessageBroadcast else if BitUnpack(15, 1, c.id) != 0 then ServiceRequest else ServiceResponse,
        if isService then BitUnpack(16, 8, c.id) else if src == BROADCAST then message % 4 else message,
        src,
        if isService then BitUnpack(8, 7, c.id) else BROADCAST,
        Num(tail[3..]), tail[0], tail[1], tail[2],
        c.data[..|c.data| - 1]);
      if f.IsValid() then Some(f) else None
  }

  lemma TidInRange(tail: Byte)
    ensures Num(tail[3..]) < NUM_TIDS
  {
    assert Pow2(5) == 32;
  }

  // ----- Layout of the compiled frame

  lemma TailLayout(f: Frame)
    ensures TailByte(f) == [f.startOfTransfer, f.endOfTransfer, f.toggle] + ToBits(f.tid, 5)
  {
    assert Pow2(5) == 32;
    hide ToBits, Pow2;
    ToBitsSuffix(f.tid, 8, 5);
    HighBitsClear(f.tid, 8, 5);
    var t := ToBits(f.tid, 8);
    assert t == t[..3] + t[3..];
    OrFlags(t, ToBits(f.tid, 5), f.startOfTransfer, f.endOfTransfer, f.toggle);
  }

  lemma OrFlags(t: Byte, low: seq<bool>, s: bool, e: bool, g: bool)
    requires |low| == 5 && t == Zeros(3) + low
    ensures Or(Or(Or(t, if s then Zeros(0) + [true] + Zeros(7) else Zeros(8)),
                  if e then Zeros(1) + [true] + Zeros(6) else Zeros(8)),
               if g then Zeros(2) + [true] + Zeros(5) else Zeros(8)) == [s, e, g] + low
  {}

  lemma HighBitsClear(v: nat, w: nat, k: nat)
    requires k <= w && v < Pow2(k)
    ensures ToBits(v, w)[..w - k] == Zeros(w - k)
  {
    NumToBits(v, k);
    NumZeros(w - k);
    NumConcat(Zeros(w - k), ToBits(v, k));
    ToBitsNum(Zeros(w - k) + ToBits(v, k));
  }

  predicate MessageLayout(id: Word32, p: seq<bool>, d: seq<bool>, s: seq<bool>) {
    && id[0] && !id[1] && !id[2] && id[3..8] == p && id[8..24] == d && !id[24] && id[25..32] == s
  }

  predicate ServiceLayout(id: Word32, p: seq<bool>, d: seq<bool>, r: bool, n: seq<bool>, s: seq<bool>) {
    && id[0] && !id[1] && !id[2] && id[3..8] == p && id[8..16] == d && id[16] == r
    && id[17..24] == n && id[24] && id[25..32] == s
  }

  /** Bit `i` of a packed field, counted from the most significant end of the word. */
  lemma BitPackAt(offset: nat, width: nat, field: nat, i: nat)
    requires offset + width <= 32 && i < 32
    ensures BitPack(offset, width, field)[i] ==
            if 32 - offset - width <= i < 32 - offset then ToBits(field, width)[i - (32 - offset - width)] else false
  {
  }

  lemma CommonBits(f: Frame, i: nat)
    requires i < 32
    ensures Or(Or(BitPack(FLAG_EFF, 1, 1), BitPack(0, 7, f.src)), BitPack(24, 5, f.priority))[i] ==
            if i == 0 then true
            else if 3 <= i < 8 then ToBits(f.priority, 5)[i - 3]
            else if 25 <= i then ToBits(f.src, 7)[i - 25] else false
  {
    assert ToBits(1, 1) == [true];
    hide BitPack, ToBits;
    BitPackAt(FLAG_EFF, 1, 1, i);
    BitPackAt(0, 7, f.src, i);
    BitPackAt(24, 5, f.priority, i);
  }

  lemma {:induction false} MessageIdLayout(f: Frame)
    requires f.transferType.MessageBroadcast?
    ensures MessageLayout(BaseId(f), ToBits(f.priority, 5), ToBits(f.dataTypeId, 16), ToBits(f.src, 7))
  {
    assert ToBits(0, 1) == [false];
    hide BitPack, ToBits;
    forall i | 0 <= i < 32
      ensures BaseId(f)[i] ==
              if i == 0 then true
              else if 3 <= i < 8 then ToBits(f.priority, 5)[i - 3]
              else if 8 <= i < 24 then ToBits(f.dataTypeId, 16)[i - 8]
              else if 25 <= i then ToBits(f.src, 7)[i - 25] else false
    {
      CommonBits(f, i);
      BitPackAt(7, 1, 0, i);
      BitPackAt(8, 16, f.dataTypeId, i);
    }
  }

  lemma ServiceIdLayout(f: Frame)
    requires !f.transferType.MessageBroadcast?
    ensures ServiceLayout(BaseId(f), ToBits(f.priority, 5), ToBits(f.dataTypeId, 8), f.transferType.ServiceRequest?,
                          ToBits(f.dst, 7), ToBits(f.src, 7))
  {
    var request := f.transferType.ServiceRequest?;
    hide BitPack, ToBits, BaseId;
    forall i | 0 <= i < 32
      ensures BaseId(f)[i] == ServiceBit(f, i)
    {
      ServiceBits(f, i);
    }
  }

  /** Bit `i` of the identifier of a service frame. */
  predicate ServiceBit(f: Frame, i: nat)
    requires i < 32
  {
    if i == 0 then true
    else if 3 <= i < 8 then ToBits(f.priority, 5)[i - 3]
    else if 8 <= i < 16 then ToBits(f.dataTypeId, 8)[i - 8]
    else if i == 16 then f.transferType.ServiceRequest?
    else if 17 <= i < 24 then ToBits(f.dst, 7)[i - 17]
    else if i == 24 then true
    else if 25 <= i then ToBits(f.src, 7)[i - 25] else false
  }

  lemma ServiceBits(f: Frame, i: nat)
    requires i < 32 && !f.transferType.MessageBroadcast?
    ensures BaseId(f)[i] == ServiceBit(f, i)
  {
    var bit := if f.transferType.ServiceRequest? then 1 else 0;
    assert ToBits(1, 1) == [true] && ToBits(bit, 1) == [f.transferType.ServiceRequest?];
    hide BitPack, ToBits;
    CommonBits(f, i);
    BitPackAt(7, 1, 1, i);
    BitPackAt(8, 7, f.dst, i);
    BitPackAt(15, 1, bit, i);
    BitPackAt(16, 8, f.dataTypeId, i);
  }

  // ----- Round trips

  lemma OneBit(b: bool)
    ensures Num([b]) == Digit(b)
  {
    assert [b][..0] == [];
  }

  lemma Unpacked(id: Word32)
    ensures BitUnpack(24, 5, id) == Num(id[3..8]) && BitUnpack(0, 7, id) == Num(id[25..32])
    ensures BitUnpack(8, 16, id) == Num(id[8..24]) && BitUnpack(16, 8, id) == Num(id[8..16])
    ensures BitUnpack(8, 7, id) == Num(id[17..24])
    ensures BitUnpack(7, 1, id) == Digit(id[24]) && BitUnpack(15, 1, id) == Digit(id[16])
  {
    OneBit(id[24]);
    OneBit(id[16]);
    assert id[24..25] == [id[24]] && id[16..17] == [id[16]];
  }

  lemma Powers()
    ensures Pow2(2) == 4 && Pow2(5) == 32 && Pow2(7) == 128 && Pow2(8) == 256 && Pow2(16) == 65536
  {
    assert Pow2(4) == 16 && Pow2(8) == 256 && Pow2(12) == 4096;
  }

  /** The tail byte and the payload are read back. */
  lemma UnpackTail(f: Frame)
    ensures var t := TailByte(f);
            t[0] == f.startOfTransfer && t[1] == f.endOfTransfer && t[2] == f.toggle && Num(t[3..]) == f.tid
  {
    TailLayout(f);
    Powers();
    NumToBits(f.tid, 5);
    assert TailByte(f)[3..] == ToBits(f.tid, 5);
  }

  lemma LowTwoBits(d: seq<bool>)
    requires |d| >= 2
    ensures Num(d) % 4 == Num(d[|d| - 2..])
  {
    hide *;
    var n := |d| - 2;
    assert d == d[..n] + d[n..];
    NumConcat(d[..n], d[n..]);
    assert Num(d[n..]) < Pow2(2);
    Powers();
  }

  /** What a receiver reads from a compiled frame: the frame itself, except that an anonymous frame keeps
      only the two lowest bits of its data type ID. */
  lemma ParseCompiled(f: Frame)
    requires f.IsValid()
    ensures Parse(Compile(f).value) == Some(if f.src == BROADCAST then f.(dataTypeId := f.dataTypeId % 4) else f)
  {
    hide BitUnpack, BaseId, Discriminator, TailByte, Num, ToBits, Pow2, Crc.Update, Or;
    UnpackTail(f);
    var c := Compile(f).value;
    assert c.data[..|c.data| - 1] == f.payload;
    Powers();
    NumToBits(f.priority, 5);
    NumToBits(f.src, 7);
    Unpacked(c.id);
    if f.transferType.MessageBroadcast? {
      NumToBits(f.dataTypeId, 16);
      if f.src == BROADCAST {
        AnonymousField(f);
      } else {
        MessageIdLayout(f);
      }
    } else {
      NumToBits(f.dataTypeId, 8);
      NumToBits(f.dst, 7);
      ServiceIdLayout(f);
    }
  }

  lemma AnonymousLayout(base: Word32, crc: Word16, p: seq<bool>, d: seq<bool>, s: seq<bool>)
    requires MessageLayout(base, p, d, s)
    ensures MessageLayout(Or(base, Zeros(8) + crc[2..] + Zeros(10)), p, Or(d, crc[2..] + Zeros(2)), s)
  {
    var id := Or(base, Zeros(8) + crc[2..] + Zeros(10));
    forall i | 0 <= i < 32
      ensures id[i] == (base[i] || (8 <= i < 22 && crc[i - 6]))
    {}
    var e := Or(d, crc[2..] + Zeros(2));
    forall j | 0 <= j < 16
      ensures e[j] == id[8..24][j]
    {
      assert d[j] == base[8..24][j] == base[8 + j];
    }
  }

  lemma OrLowBits(d: seq<bool>, crc: Word16)
    requires |d| == 16
    ensures Or(d, crc[2..] + Zeros(2))[14..] == d[14..]
  {}

  lemma AnonymousField(f: Frame)
    requires f.IsValid() && f.src == BROADCAST
    ensures var id := Compile(f).value.id;
            && id[0] && !id[1] && !id[2] && !id[24]
            && id[3..8] == ToBits(f.priority, 5) && id[25..32] == ToBits(f.src, 7)
            && Num(id[8..24]) % 4 == f.dataTypeId % 4
  {
    hide BitUnpack, BaseId, TailByte, Num, ToBits, Pow2, Crc.Update, Or;
    var c := Compile(f).value;
    var crc := Crc.Update(Crc.Initial(), c.data);
    var d := ToBits(f.dataTypeId, 16);
    MessageIdLayout(f);
    AnonymousLayout(BaseId(f), crc, ToBits(f.priority, 5), d, ToBits(f.src, 7));
    LowTwoBits(c.id[8..24]);
    LowTwoBits(d);
    OrLowBits(d, crc);
    Powers();
    NumToBits(f.dataTypeId, 16);
  }

  /** Parsing undoes compilation exactly for the frames that name their source, or whose data type ID
      fits the two bits that the discriminator leaves alone. */
  lemma RoundTrip(f: Frame)
    requires f.IsValid()
    ensures Compile(f).Some?
    ensures Parse(Compile(f).value) == Some(f) <==> f.src != BROADCAST || f.dataTypeId <= 3
  {
    hide Parse, BaseId, Discriminator, TailByte;
    ParseCompiled(f);
  }

  /** The failing input: an anonymous message of type 4 is read as one of type 0. */
  lemma AnonymousTypeLost()
    ensures var f := Frame(16, MessageBroadcast, 4, BROADCAST, BROADCAST, 0, true, true, false, []);
            f.IsValid() && Parse(Compile(f).value) == Some(f.(dataTypeId := 0))
  {
    hide Parse, Compile;
    ParseCompiled(Frame(16, MessageBroadcast, 4, BROADCAST, BROADCAST, 0, true, true, false, []));
  }

  lemma SameWord(a: Word32, b: Word32)
    requires a[0] == b[0] && a[1] == b[1] && a[2] == b[2] && a[3..8] == b[3..8] && a[8..16] == b[8..16]
    requires a[16] == b[16] && a[17..24] == b[17..24] && a[24] == b[24] && a[25..32] == b[25..32]
    ensures a == b
  {
    forall i | 0 <= i < 32
      ensures a[i] == b[i]
    {
      if 3 <= i < 8 {
        assert a[3..8][i - 3] == b[3..8][i - 3];
      } else if 8 <= i < 16 {
        assert a[8..16][i - 8] == b[8..16][i - 8];
      } else if 17 <= i < 24 {
        assert a[17..24][i - 17] == b[17..24][i - 17];
      } else if i >= 25 {
        assert a[25..32][i - 25] == b[25..32][i - 25];
      }
    }
  }

  lemma SameField(a: Word32, b: Word32)
    requires a[8..24] == b[8..24]
    ensures a[8..16] == b[8..16] && a[16] == b[16] && a[17..24] == b[17..24]
  {
    assert a[8..16] == a[8..24][..8] && b[8..16] == b[8..24][..8];
    assert a[16] == a[8..24][8] && b[16] == b[8..24][8];
    assert a[17..24] == a[8..24][9..] && b[17..24] == b[8..24][9..];
  }

  lemma RebuiltId(id: Word32, f: Frame)
    requires id[0] && !id[1] && !id[2]
    requires f.priority == Num(id[3..8]) && f.src == Num(id[25..32])
    requires f.transferType.MessageBroadcast? <==> !id[24]
    requires !id[24] ==> f.dataTypeId == Num(id[8..24])
    requires id[24] ==> f.dataTypeId == Num(id[8..16]) && f.dst == Num(id[17..24])
                        && f.transferType.ServiceRequest? == id[16]
    ensures BaseId(f) == id
  {
    hide BaseId, Num, ToBits;
    ToBitsNum(id[3..8]);
    ToBitsNum(id[25..32]);
    if f.transferType.MessageBroadcast? {
      MessageIdLayout(f);
      ToBitsNum(id[8..24]);
      SameField(id, BaseId(f));
    } else {
      ServiceIdLayout(f);
      ToBitsNum(id[8..16]);
      ToBitsNum(id[17..24]);
    }
    SameWord(BaseId(f), id);
  }

  lemma RebuiltTail(f: Frame, tail: Byte)
    requires f.startOfTransfer == tail[0] && f.endOfTransfer == tail[1] && f.toggle == tail[2] && f.tid == Num(tail[3..])
    ensures TailByte(f) == tail
  {
    hide TailByte, Num, ToBits;
    TailLayout(f);
    ToBitsNum(tail[3..]);
  }

  /** Compilation undoes parsing, and loses nothing: the CAN frame of a named source is rebuilt bit for bit. */
  lemma CompileParsed(c: CanFrame)
    requires Parse(c).Some? && Parse(c).value.src != BROADCAST
    ensures Compile(Parse(c).value) == Some(c)
  {
    hide BitUnpack, BaseId, Discriminator, TailByte, Num;
    var f := Parse(c).value;
    Unpacked(c.id);
    RebuiltId(c.id, f);
    RebuiltTail(f, c.data[|c.data| - 1]);
    assert c.data == f.payload + [c.data[|c.data| - 1]];
  }
}
