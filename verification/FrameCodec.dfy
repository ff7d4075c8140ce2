/**
 The frame layout of erpc_handler.cpp: a 4-byte command id, with a header also a 4-byte return
 code and a 50-byte message field, and then the body. Numbers are copied from memory, so they
 appear in the byte order of a little-endian host.
 */
module FrameCodec {
  import opened Options
  import opened Words

  const MSG_LIMIT: nat := 50              // HEADER_RET_MSG_LIMIT_SIZE
  const PACKET_LENGTH_ERR: int := -1001   // kPacketLengthErr

  datatype Frame = Frame(cmdid: nat, retCode: int, retMsg: seq<byte>, body: seq<byte>) {
    /** cmdid is a uint32_t and retCode an int. */
    predicate InRange() {
      cmdid < TWO32 && -0x8000_0000 <= retCode < 0x8000_0000
    }
  }

  // ------------------------------------------------------- C integer widths

  /** _MemoryCopyToString of a 4-byte object. */
  function CopyToString(x: int): (s: seq<byte>)
    ensures |s| == 4
  {
    LittleEndian(4, x % TWO32)
  }

  /** _MemoryCorpToObject<uint32_t>. */
  function ToUnsigned(s: seq<byte>): nat
    requires |s| == 4
  {
    FromLittleEndian(s)
  }

  /** _MemoryCorpToObject<int>. */
  function ToSigned(s: seq<byte>): int
    requires |s| == 4
  {
    ToInt32(FromLittleEndian(s))
  }

  lemma IntegerCopies(u: nat, i: int, s: seq<byte>)
    requires u < TWO32 && -0x8000_0000 <= i < 0x8000_0000 && |s| == 4
    ensures ToUnsigned(CopyToString(u)) == u && ToSigned(CopyToString(i)) == i
    ensures CopyToString(ToUnsigned(s)) == s && CopyToString(ToSigned(s)) == s
    ensures ToUnsigned(s) < TWO32
  {
    UnsignedCopies(u, s);
    SignedCopies(i, s);
  }

  lemma UnsignedCopies(u: nat, s: seq<byte>)
    requires u < TWO32 && |s| == 4
    ensures ToUnsigned(CopyToString(u)) == u && CopyToString(ToUnsigned(s)) == s && ToUnsigned(s) < TWO32
  {
    Pow256Values();
    LittleEndianBijection(4, u, s);
    DivModUnique(u, TWO32, 0, u);
    DivModUnique(FromLittleEndian(s), TWO32, 0, FromLittleEndian(s));
  }

  lemma SignedCopies(i: int, s: seq<byte>)
    requires -0x8000_0000 <= i < 0x8000_0000 && |s| == 4
    ensures ToSigned(CopyToString(i)) == i && CopyToString(ToSigned(s)) == s
  {
    Pow256Values();
    LittleEndianBijection(4, i % TWO32, s);
    TwosComplement(i, FromLittleEndian(s));
  }

  lemma TwosComplement(i: int, u: nat)
    requires u < TWO32 && -0x8000_0000 <= i < 0x8000_0000
    ensures ToInt32(i % TWO32) == i && ToInt32(u) % TWO32 == u
  {
    DivModUnique(u, TWO32, 0, u);
    DivModUnique(i % TWO32, TWO32, 0, i % TWO32);
    if i < 0 {
      DivModUnique(i, TWO32, -1, i + TWO32);
    } else {
      DivModUnique(i, TWO32, 0, i);
    }
    if u >= 0x8000_0000 {
      DivModUnique(u - TWO32, TWO32, -1, u);
    }
  }

  // ------------------------------------------------------------ pack, parse

  /** The message field as the layout asks for it: cut or zero-padded to 50 bytes. */
  function MessageField(msg: seq<byte>): (r: seq<byte>)
    ensures |r| == MSG_LIMIT
  {
    if |msg| >= MSG_LIMIT then msg[..MSG_LIMIT] else msg + Zeros(MSG_LIMIT - |msg|)
  }

  /** The number of zero bytes appended; the message size has been converted to an int. */
  function Padding(size: nat): nat {
    if MSG_LIMIT - ToInt32(size) > 0 then MSG_LIMIT - ToInt32(size) else 0
  }

  function Pack(p: Frame, withHeader: bool): (s: seq<byte>)
  {
    CopyToString(p.cmdid)
    + (if withHeader
       then CopyToString(p.retCode)
            + p.retMsg[..if |p.retMsg| < MSG_LIMIT then |p.retMsg| else MSG_LIMIT]
            + Zeros(Padding(|p.retMsg|))
       else [])
    + p.body
  }

  function MinSize(withHeader: bool): nat {
    4 + (if withHeader then 4 + MSG_LIMIT else 0)
  }

  /** The packet after parsing s into p; without a header its header fields stay as they were. */
  function Parse(p: Frame, s: seq<byte>, withHeader: bool): (r: Option<Frame>)
  {
    if |s| < MinSize(withHeader) then None
    else if withHeader then Some(Frame(ToUnsigned(s[..4]), ToSigned(s[4..8]), s[8..8 + MSG_LIMIT], s[58..]))
    else Some(p.(cmdid := ToUnsigned(s[..4]), body := s[4..]))
  }

  class PacketData {
    var cmdid: nat
    var retCode: int
    var retMsg: seq<byte>
    var body: seq<byte>

    function Value(): Frame
      reads this
    {
      Frame(cmdid, retCode, retMsg, body)
    }

    method ParseDataFromString(str: seq<byte>, withHeader: bool) returns (ret: int)
      modifies this
      ensures ret == if Parse(old(Value()), str, withHeader).Some? then 0 else PACKET_LENGTH_ERR
      ensures Value() == match Parse(old(Value()), str, withHeader) case Some(p) => p case None => old(Value())
    {
      var minSize := 4 + (if withHeader then 4 + MSG_LIMIT else 0);
      if |str| < minSize {
        return PACKET_LENGTH_ERR;
      }
      cmdid := ToUnsigned(str[0..4]);
      if withHeader {
        retCode := ToSigned(str[4..8]);
        retMsg := str[8..8 + MSG_LIMIT];
      }
      body := str[minSize..];
      return 0;
    }

    method PackDataToString(withHeader: bool) returns (str: seq<byte>)
      ensures str == Pack(Value(), withHeader)
    {
      str := [];
      str := str + CopyToString(cmdid);
      if withHeader {
        str := str + CopyToString(retCode);
        var msgSize := ToInt32(|retMsg|);
        str := str + retMsg[..if |retMsg| < MSG_LIMIT then |retMsg| else MSG_LIMIT];
        str := str + Zeros(if MSG_LIMIT - msgSize > 0 then MSG_LIMIT - msgSize else 0);
      }
      str := str + body;
    }
  }

  // ------------------------------------------------------------- inverses

  /** The int conversion of the message size does no harm. */
  predicate SizeSurvives(size: nat) {
    size < MSG_LIMIT || ToInt32(size) >= MSG_LIMIT
  }

  /** The number that four bytes hold, least significant byte first. */
  lemma FourByteNumber(s: seq<byte>)
    requires |s| == 4
    ensures FromLittleEndian(s) ==
            (s[0] as int) + 256 * (s[1] as int) + 0x1_0000 * (s[2] as int) + 0x100_0000 * (s[3] as int)
  {
    var d1, d2, d3 := s[1..], s[2..], s[3..];
    assert d1[1..] == d2 && d2[1..] == d3 && d3[1..] == [];
    assert FromLittleEndian(d3) == s[3];
    assert FromLittleEndian(d2) == (s[2] as int) + 256 * (s[3] as int);
    assert FromLittleEndian(d1) == s[1] + 256 * FromLittleEndian(d2);
  }

  /** Which bytes of the string the parsed fields come from; without a header two fields stay. */
  lemma ParseLayout(into: Frame, s: seq<byte>, withHeader: bool)
    requires |s| >= if withHeader then 58 else 4
    ensures
      var r := Parse(into, s, withHeader);
      && r.Some?
      && r.value.cmdid ==
           (s[0] as int) + 256 * (s[1] as int) + 0x1_0000 * (s[2] as int) + 0x100_0000 * (s[3] as int)
      && (!withHeader ==>
            r.value.body == s[4..] && r.value.retCode == into.retCode && r.value.retMsg == into.retMsg)
      && (withHeader ==>
            var u := (s[4] as int) + 256 * (s[5] as int) + 0x1_0000 * (s[6] as int) + 0x100_0000 * (s[7] as int);
            && r.value.retCode == (if s[7] < 128 then u else u - 0x1_0000_0000)
            && r.value.retMsg == s[8..58] && r.value.body == s[58..])
  {
    FourByteNumber(s[..4]);
    if withHeader {
      FourByteNumber(s[4..8]);
    }
  }

  /** parse(pack(p)) without a header restores the command id and the body. */
  lemma ParseOfPackPlain(p: Frame, into: Frame)
    requires p.InRange()
    ensures Parse(into, Pack(p, false), false) == Some(into.(cmdid := p.cmdid, body := p.body))
  {
    var s := Pack(p, false);
    IntegerCopies(p.cmdid, 0, CopyToString(0));
    assert s[..4] == CopyToString(p.cmdid) && s[4..] == p.body;
  }

  /** Zero bytes appended beyond the 50th byte of the message field. */
  function Surplus(size: nat): (n: nat)
    ensures n == 0 <==> SizeSurvives(size)
  {
    (if size < MSG_LIMIT then size else MSG_LIMIT) + Padding(size) - MSG_LIMIT
  }

  lemma PaddedMessage(msg: seq<byte>)
    ensures msg[..if |msg| < MSG_LIMIT then |msg| else MSG_LIMIT] + Zeros(Padding(|msg|)) ==
            MessageField(msg) + Zeros(Surplus(|msg|))
  {
    if |msg| >= MSG_LIMIT {
      assert Padding(|msg|) == Surplus(|msg|);
    } else {
      assert Zeros(Surplus(|msg|)) == [] && msg[..|msg|] == msg;
    }
  }

  lemma FrameSlices(a: seq<byte>, b: seq<byte>, field: seq<byte>, rest: seq<byte>)
    requires |a| == |b| == 4 && |field| == MSG_LIMIT
    ensures var s := a + b + field + rest;
            s[..4] == a && s[4..8] == b && s[8..58] == field && s[58..] == rest
  {
  }

  /** A packed frame is id, code, the message field, the surplus zeros and the body. */
  lemma PackedParts(p: Frame)
    ensures Pack(p, true) ==
            CopyToString(p.cmdid) + CopyToString(p.retCode) + MessageField(p.retMsg)
            + (Zeros(Surplus(|p.retMsg|)) + p.body)
  {
    var msg := p.retMsg;
    var cut, pad := msg[..if |msg| < MSG_LIMIT then |msg| else MSG_LIMIT], Zeros(Padding(|msg|));
    PaddedMessage(msg);
    assert CopyToString(p.cmdid) + (CopyToString(p.retCode) + cut + pad) + p.body
        == CopyToString(p.cmdid) + CopyToString(p.retCode) + (cut + pad) + p.body;
  }

  /**
   parse(pack(p)) with a header restores the numbers, cuts or pads the message, and puts the surplus
   zeros in front of the body; so it restores the body exactly when the message size survives its
   conversion to int.
   */
  lemma ParseOfPackWithHeader(p: Frame, into: Frame)
    requires p.InRange()
    ensures
      var r := Parse(into, Pack(p, true), true);
      && r.Some?
      && r.value.cmdid == p.cmdid && r.value.retCode == p.retCode
      && r.value.retMsg == MessageField(p.retMsg)
      && r.value.body == Zeros(Surplus(|p.retMsg|)) + p.body
      && (r.value.body == p.body <==> SizeSurvives(|p.retMsg|))
  {
    var rest := Zeros(Surplus(|p.retMsg|)) + p.body;
    PackedParts(p);
    FrameSlices(CopyToString(p.cmdid), CopyToString(p.retCode), MessageField(p.retMsg), rest);
    IntegerCopies(p.cmdid, p.retCode, CopyToString(0));
    if SizeSurvives(|p.retMsg|) {
      assert rest == p.body;
    } else {
      assert |rest| > |p.body|;
    }
  }

  /** A message longer than an int can count: 40 zero bytes appear in front of the body. */
  lemma OversizeMessageShiftsBody(p: Frame, into: Frame)
    requires p.InRange() && |p.retMsg| == TWO32 + 10
    ensures Parse(into, Pack(p, true), true).Some?
    ensures Parse(into, Pack(p, true), true).value.body == Zeros(40) + p.body
  {
    ParseOfPackWithHeader(p, into);
  }

  /** pack(parse(s)) is s, and parse fails exactly on strings that are too short. */
  lemma PackOfParse(into: Frame, s: seq<byte>, withHeader: bool)
    ensures Parse(into, s, withHeader).None? <==> |s| < (if withHeader then 58 else 4)
    ensures Parse(into, s, withHeader).Some? ==> Pack(Parse(into, s, withHeader).value, withHeader) == s
  {
    if |s| >= MinSize(withHeader) {
      IntegerCopies(0, 0, s[..4]);
      if withHeader {
        IntegerCopies(0, 0, s[4..8]);
        assert s[8..58][..50] == s[8..58];
        assert Padding(50) == 0;
        assert Pack(Parse(into, s, true).value, true)
            == s[..4] + (s[4..8] + s[8..58] + Zeros(0)) + s[58..];
        assert s[8..58] + Zeros(0) == s[8..58];
      } else {
        assert s[..4] + [] + s[4..] == s;
      }
    }
  }
}
