/**
  The SMS Gamer serial wire codec: checksum, the 7-byte command frame, and
  the decoder of the fixed-layout reply to the 'Q' (status) command.

  Readings are kept as the raw big-endian integers, i.e. in tenths of the
  unit the bridge publishes (the source divides by 10.0 and rounds to one
  decimal place for presentation only).
 */
module Codec {
  import opened Base
  import opened Bytes

  /** A command as the device understands it: an opcode and four parameter bytes. */
  datatype Command = Command(opcode: byte, p1: byte, p2: byte, p3: byte, p4: byte)

  /** Carriage return: the frame terminator, and the optional terminator of a reply. */
  const CR: byte := 0x0D

  /** Length of every command frame: five command bytes, the checksum, CR. */
  const FrameLength := 7

  /** Shortest reply the decoder accepts, counted before the terminator is dropped. */
  const MinReplyLength := 17

  // ---------------------------------------------------------------------------
  // Checksum and command frames
  // ---------------------------------------------------------------------------

  /** Two's-complement negation of the byte sum, masked to 8 bits:
      `(-1 * (cmd + p1 + p2 + p3 + p4)) & 0xFF`. Python's `&` on a negative
      integer and Dafny's Euclidean `%` agree here. */
  function Checksum(opcode: int, p1: int, p2: int, p3: int, p4: int): (c: byte)
    ensures (opcode + p1 + p2 + p3 + p4 + c) % 256 == 0
  {
    (-(opcode + p1 + p2 + p3 + p4)) % 256
  }

  /** The checksum is the only byte that makes the six bytes sum to 0 mod 256. */
  lemma ChecksumUnique(opcode: int, p1: int, p2: int, p3: int, p4: int, c: byte)
    requires (opcode + p1 + p2 + p3 + p4 + c) % 256 == 0
    ensures c == Checksum(opcode, p1, p2, p3, p4)
  {
    var s := opcode + p1 + p2 + p3 + p4;
    var k := Checksum(opcode, p1, p2, p3, p4);
    assert (s + k) % 256 == 0;
    assert (c - k) % 256 == 0 by {
      ModDifference(s + c, s + k);
    }
  }

  lemma ModDifference(a: int, b: int)
    requires a % 256 == 0 && b % 256 == 0
    ensures (a - b) % 256 == 0
  {
    assert a == (a / 256) * 256;
    assert b == (b / 256) * 256;
    assert a - b == (a / 256 - b / 256) * 256;
  }

  /** `build_full_command`: `struct.pack('BBBBBB', …) + b'\r'`. */
  function BuildFrame(cmd: Command): (f: seq<byte>)
    ensures |f| == FrameLength
    ensures f[FrameLength - 1] == CR
    ensures f[0] == cmd.opcode && f[1] == cmd.p1 && f[2] == cmd.p2 && f[3] == cmd.p3 && f[4] == cmd.p4
    ensures (f[0] as int + f[1] + f[2] + f[3] + f[4] + f[5]) % 256 == 0
  {
    [cmd.opcode, cmd.p1, cmd.p2, cmd.p3, cmd.p4,
     Checksum(cmd.opcode, cmd.p1, cmd.p2, cmd.p3, cmd.p4), CR]
  }

  /** What a device accepts as a command frame: seven bytes, a valid checksum, CR last. */
  function ParseFrame(f: seq<byte>): Option<Command>
  {
    if |f| == FrameLength && f[6] == CR && (f[0] as int + f[1] + f[2] + f[3] + f[4] + f[5]) % 256 == 0
    then Some(Command(f[0], f[1], f[2], f[3], f[4]))
    else None
  }

  lemma ParseBuildFrame(cmd: Command)
    ensures ParseFrame(BuildFrame(cmd)) == Some(cmd)
  {
  }

  /** Every frame a device accepts is the frame built for the command it carries. */
  lemma BuildParseFrame(f: seq<byte>)
    requires ParseFrame(f).Some?
    ensures BuildFrame(ParseFrame(f).value) == f
  {
    var cmd := ParseFrame(f).value;
    ChecksumUnique(f[0], f[1], f[2], f[3], f[4], f[5]);
    assert BuildFrame(cmd) == [f[0], f[1], f[2], f[3], f[4], f[5], f[6]];
  }

  /** Two different commands never share a frame. */
  lemma BuildFrameInjective(a: Command, b: Command)
    requires BuildFrame(a) == BuildFrame(b)
    ensures a == b
  {
    ParseBuildFrame(a);
    ParseBuildFrame(b);
  }

  // ---------------------------------------------------------------------------
  // Status flags (byte 15 of the 'Q' reply)
  // ---------------------------------------------------------------------------

  /** Name of the status flag carried by each bit of byte 15. */
  function FlagName(bit: nat): (name: string)
    requires bit < 8
    ensures |name| > 0 && name[0] in "BSTU"
  {
    match bit
    case 7 => "BateriaEmUso"
    case 6 => "BateriaBaixa"
    case 5 => "ByPass"
    case 4 => "Boost"
    case 3 => "UpsOk"
    case 2 => "TesteAtivo"
    case 1 => "ShutdownAtivo"
    case 0 => "BeepLigado"
  }

  lemma FlagNameInjective(a: nat, b: nat)
    requires a < 8 && b < 8 && a != b
    ensures FlagName(a) != FlagName(b)
  {
    if |FlagName(a)| == |FlagName(b)| {
      assert FlagName(a)[0] != FlagName(b)[0] || FlagName(a)[7] != FlagName(b)[7];
    }
  }

  /** Adds one to every bit index. */
  function Shift(bits: seq<nat>): (r: seq<nat>)
    ensures |r| == |bits|
    ensures forall i :: 0 <= i < |r| ==> r[i] == bits[i] + 1
  {
    seq(|bits|, i requires 0 <= i < |bits| => bits[i] + 1)
  }

  /** Indices of the set bits of `x` below `n`, highest first. */
  function ActiveBits(x: nat, n: nat): (bits: seq<nat>)
    ensures forall i :: 0 <= i < |bits| ==> bits[i] < n
  {
    if n == 0 then []
    else Shift(ActiveBits(x / 2, n - 1)) + (if x % 2 == 1 then [0] else [])
  }

  /** Bits are listed strictly from the highest down. */
  lemma {:induction false} ActiveBitsDescending(x: nat, n: nat)
    ensures forall i, j :: 0 <= i < j < |ActiveBits(x, n)| ==> ActiveBits(x, n)[i] > ActiveBits(x, n)[j]
  {
    if n > 0 {
      var high := ActiveBits(x / 2, n - 1);
      ActiveBitsDescending(x / 2, n - 1);
      var low: seq<nat> := if x % 2 == 1 then [0] else [];
      assert ActiveBits(x, n) == Shift(high) + low;
    }
  }

  /** Bit `b` is listed exactly when it is below `n` and set in `x`. */
  lemma {:induction false} ActiveBitsMembership(x: nat, n: nat, b: nat)
    ensures b in ActiveBits(x, n) <==> b < n && BitSet(x, b)
  {
    if n > 0 {
      var high := ActiveBits(x / 2, n - 1);
      var shifted := Shift(high);
      var low: seq<nat> := if x % 2 == 1 then [0] else [];
      assert ActiveBits(x, n) == shifted + low;
      if b == 0 {
        assert 0 !in shifted;
        assert 0 in low <==> x % 2 == 1;
      } else {
        assert b !in low;
        assert b in shifted <==> b - 1 in high by {
          if b in shifted {
            var i :| 0 <= i < |shifted| && shifted[i] == b;
            assert high[i] == b - 1;
          }
          if b - 1 in high {
            var i :| 0 <= i < |high| && high[i] == b - 1;
            assert shifted[i] == b;
          }
        }
        assert BitSet(x, b) == BitSet(x / 2, b - 1);
        ActiveBitsMembership(x / 2, n - 1, b - 1);
      }
    }
  }

  /** Each flag name is the key of exactly one bit's mask. */
  lemma FlagMaskOfName(b: nat)
    requires b < 8
    ensures FlagMask(FlagName(b)) == Pow2(b)
  {
    FlagNamesDistinct();
    match b
    case 7 => assert Pow2(7) == 128;
    case 6 => assert Pow2(6) == 64;
    case 5 => assert Pow2(5) == 32;
    case 4 => assert Pow2(4) == 16;
    case 3 => assert Pow2(3) == 8;
    case 2 => assert Pow2(2) == 4;
    case 1 => assert Pow2(1) == 2;
    case 0 => assert Pow2(0) == 1;
  }

  lemma FlagNamesDistinct()
    ensures forall a: nat, b: nat :: a < 8 && b < 8 && a != b ==> FlagName(a) != FlagName(b)
  {
    forall a: nat, b: nat | a < 8 && b < 8 && a != b
      ensures FlagName(a) != FlagName(b)
    {
      FlagNameInjective(a, b);
    }
  }

  lemma {:induction false} Pow2Monotone(a: nat, b: nat)
    requires a < b
    ensures Pow2(a) < Pow2(b)
  {
    if b > a + 1 {
      Pow2Monotone(a, b - 1);
    }
  }

  /** The facts `ActiveFlags` promises, for the names of the bits `bits`. */
  lemma FlagListFacts(x: byte, bits: seq<nat>, names: seq<string>)
    requires bits == ActiveBits(x, 8)
    requires |names| == |bits| && forall i :: 0 <= i < |names| ==> names[i] == FlagName(bits[i])
    ensures forall b :: 0 <= b < 8 ==> (FlagName(b) in names <==> BitSet(x, b))
    ensures forall i, j :: 0 <= i < j < |names| ==> FlagMask(names[i]) > FlagMask(names[j])
    ensures forall i, j :: 0 <= i < j < |names| ==> names[i] != names[j]
  {
    forall b | 0 <= b < 8
      ensures FlagName(b) in names <==> BitSet(x, b)
    {
      ActiveBitsMembership(x, 8, b);
      if BitSet(x, b) {
        var i :| 0 <= i < |bits| && bits[i] == b;
        assert names[i] == FlagName(b);
      }
      if FlagName(b) in names {
        var i :| 0 <= i < |names| && names[i] == FlagName(b);
        FlagNamesDistinct();
        assert bits[i] == b;
        assert bits[i] in bits;
      }
    }
    ActiveBitsDescending(x, 8);
    forall i, j | 0 <= i < j < |names|
      ensures FlagMask(names[i]) > FlagMask(names[j]) && names[i] != names[j]
    {
      FlagMaskOfName(bits[i]);
      FlagMaskOfName(bits[j]);
      Pow2Monotone(bits[j], bits[i]);
    }
  }

  /** `flags_on`: the names of the set bits of byte 15, bit 7 first. A name
      is listed exactly when its bit is set, in decreasing bit order, so no
      name is listed twice. */
  function ActiveFlags(x: byte): (names: seq<string>)
    ensures forall b :: 0 <= b < 8 ==> (FlagName(b) in names <==> BitSet(x, b))
    ensures forall i, j :: 0 <= i < j < |names| ==> FlagMask(names[i]) > FlagMask(names[j])
    ensures forall i, j :: 0 <= i < j < |names| ==> names[i] != names[j]
  {
    var bits := ActiveBits(x, 8);
    var names := seq(|bits|, i requires 0 <= i < |bits| => FlagName(bits[i]));
    FlagListFacts(x, bits, names);
    names
  }

  /** `', '.join(names)`. */
  function Join(names: seq<string>, sep: string): string
  {
    if |names| == 0 then ""
    else if |names| == 1 then names[0]
    else names[0] + sep + Join(names[1..], sep)
  }

  const NoActiveFlags := "nenhuma flag ativa"

  /** `active_flags_str`: the joined names, or the fixed text when no flag is set. */
  function FlagsSummary(names: seq<string>): string
  {
    if |names| == 0 then NoActiveFlags else Join(names, ", ")
  }

  /** Inverse of `ActiveFlags`: rebuilds byte 15 from the names of its set bits. */
  function FlagsByte(names: seq<string>): nat
  {
    if |names| == 0 then 0 else FlagMask(names[0]) + FlagsByte(names[1..])
  }

  function FlagMask(name: string): nat
  {
    if name == FlagName(7) then 128
    else if name == FlagName(6) then 64
    else if name == FlagName(5) then 32
    else if name == FlagName(4) then 16
    else if name == FlagName(3) then 8
    else if name == FlagName(2) then 4
    else if name == FlagName(1) then 2
    else if name == FlagName(0) then 1
    else 0
  }

  // ---------------------------------------------------------------------------
  // The 'Q' reply
  // ---------------------------------------------------------------------------

  /** The six numeric readings, each in tenths (raw big-endian value). */
  datatype Readings = Readings(
    vin: nat,            // bytes 1..4, u32
    vout: nat,           // bytes 5..6, u16
    loadPercent: nat,    // bytes 7..8
    frequency: nat,      // bytes 9..10
    batteryPercent: nat, // bytes 11..12
    temperature: nat)    // bytes 13..14

  /** The decoded status the bridge publishes (the capture timestamp is not modelled). */
  datatype QStatus = QStatus(
    readings: Readings,
    flagsRaw: byte,           // extra_flags_raw
    flagsBinary: string,      // extra_flags_binary
    activeFlags: seq<string>, // active_flags
    activeFlagsStr: string,   // active_flags_str
    rawHex: string)           // raw_response_hex

  /** Drops a single trailing CR, if there is one. */
  function StripTerminator(resp: seq<byte>): (t: seq<byte>)
    requires |resp| > 0
    ensures |t| == if resp[|resp| - 1] == CR then |resp| - 1 else |resp|
    ensures t == resp[..|t|]
  {
    if resp[|resp| - 1] == CR then resp[..|resp| - 1] else resp
  }

  /** The fixed field layout, read from a reply of at least 16 bytes. */
  function ReadingsAt(t: seq<byte>): Readings
    requires |t| >= 16
  {
    Readings(BigEndian(t[1..5]), BigEndian(t[5..7]), BigEndian(t[7..9]),
             BigEndian(t[9..11]), BigEndian(t[11..13]), BigEndian(t[13..15]))
  }

  /** `_interpret_q_response`. The length guard runs on the reply as received,
      before the optional terminator is dropped. */
  function DecodeQ(resp: seq<byte>): (r: Option<QStatus>)
    ensures r.None? <==> |resp| < MinReplyLength
    ensures r.Some? ==>
      && r.value.readings.vin == BigEndian(resp[1..5])
      && r.value.readings.vout == BigEndian(resp[5..7])
      && r.value.readings.loadPercent == BigEndian(resp[7..9])
      && r.value.readings.frequency == BigEndian(resp[9..11])
      && r.value.readings.batteryPercent == BigEndian(resp[11..13])
      && r.value.readings.temperature == BigEndian(resp[13..15])
      && r.value.flagsRaw == resp[15]
      && r.value.rawHex == Hex(StripTerminator(resp))
  {
    if |resp| == 0 || |resp| < MinReplyLength then None
    else
      var t := StripTerminator(resp);
      assert t[1..5] == resp[1..5] && t[5..7] == resp[5..7] && t[7..9] == resp[7..9];
      assert t[9..11] == resp[9..11] && t[11..13] == resp[11..13] && t[13..15] == resp[13..15];
      var extra := t[15];
      var names := ActiveFlags(extra);
      Some(QStatus(ReadingsAt(t), extra, Binary(extra, 8), names, FlagsSummary(names), Hex(t)))
  }

  /** A well-formed 'Q' reply as the device would send it: status byte,
      the six readings big-endian, the flag byte, CR. */
  function EncodeQReply(status: byte, rd: Readings, flags: byte): (resp: seq<byte>)
    requires rd.vin < Pow256(4)
    requires rd.vout < Pow256(2) && rd.loadPercent < Pow256(2) && rd.frequency < Pow256(2)
    requires rd.batteryPercent < Pow256(2) && rd.temperature < Pow256(2)
    ensures |resp| == MinReplyLength
  {
    [status] + ToBigEndian(rd.vin, 4) + ToBigEndian(rd.vout, 2) + ToBigEndian(rd.loadPercent, 2)
    + ToBigEndian(rd.frequency, 2) + ToBigEndian(rd.batteryPercent, 2) + ToBigEndian(rd.temperature, 2)
    + [flags, CR]
  }
}

/** Properties of the codec: the flag map and the 'Q' reply decoder. */
module CodecFacts {
  import opened Base
  import opened Bytes
  import opened Codec

  // ---------------------------------------------------------------------------
  // Flags
  // ---------------------------------------------------------------------------

  /** Sum of 2^b over the bit indices `bits`. */
  function BitsValue(bits: seq<nat>): nat
  {
    if |bits| == 0 then 0 else Pow2(bits[0]) + BitsValue(bits[1..])
  }

  lemma {:induction false} BitsValueAppend(a: seq<nat>, b: seq<nat>)
    ensures BitsValue(a + b) == BitsValue(a) + BitsValue(b)
  {
    if |a| == 0 {
      assert a + b == b;
    } else {
      assert (a + b)[0] == a[0];
      assert (a + b)[1..] == a[1..] + b;
      BitsValueAppend(a[1..], b);
    }
  }

  lemma {:induction false} BitsValueShift(bits: seq<nat>)
    ensures BitsValue(Shift(bits)) == 2 * BitsValue(bits)
  {
    if |bits| > 0 {
      assert Shift(bits)[1..] == Shift(bits[1..]);
      BitsValueShift(bits[1..]);
    }
  }

  /** The set bits, weighted by their powers of two, add back up to the value. */
  lemma {:induction false} BitsValueOfActiveBits(x: nat, n: nat)
    requires x < Pow2(n)
    ensures BitsValue(ActiveBits(x, n)) == x
  {
    if n > 0 {
      var p := Pow2(n - 1);
      assert Pow2(n) == 2 * p;
      assert x / 2 < p;
      var high := ActiveBits(x / 2, n - 1);
      var low: seq<nat> := if x % 2 == 1 then [0] else [];
      BitsValueOfActiveBits(x / 2, n - 1);
      assert ActiveBits(x, n) == Shift(high) + low;
      assert BitsValue(low) == x % 2 by {
        if x % 2 == 1 {
          assert low[1..] == [];
        }
      }
      BitsValueShift(high);
      BitsValueAppend(Shift(high), low);
      assert BitsValue(ActiveBits(x, n)) == 2 * (x / 2) + x % 2;
    }
  }

  lemma {:induction false} FlagsByteOfNames(bits: seq<nat>)
    requires forall i :: 0 <= i < |bits| ==> bits[i] < 8
    ensures FlagsByte(seq(|bits|, i requires 0 <= i < |bits| => FlagName(bits[i]))) == BitsValue(bits)
  {
    var names := seq(|bits|, i requires 0 <= i < |bits| => FlagName(bits[i]));
    if |bits| > 0 {
      FlagMaskOfName(bits[0]);
      assert names[1..] == seq(|bits[1..]|, i requires 0 <= i < |bits[1..]| => FlagName(bits[1..][i]));
      FlagsByteOfNames(bits[1..]);
    }
  }

  /** `ActiveFlags` loses nothing: the flag byte is recovered from its names. */
  lemma FlagsByteOfActiveFlags(x: byte)
    ensures FlagsByte(ActiveFlags(x)) == x
  {
    var bits := ActiveBits(x, 8);
    assert ActiveFlags(x) == seq(|bits|, i requires 0 <= i < |bits| => FlagName(bits[i]));
    FlagsByteOfNames(bits);
    assert Pow2(8) == 256;
    BitsValueOfActiveBits(x, 8);
  }

  /** No flag is listed exactly when the flag byte is zero. */
  lemma ActiveFlagsEmpty(x: byte)
    ensures |ActiveFlags(x)| == 0 <==> x == 0
  {
    var bits := ActiveBits(x, 8);
    assert |ActiveFlags(x)| == |bits|;
    if |bits| > 0 {
      assert BitSet(x, bits[0]) by {
        ActiveBitsMembership(x, 8, bits[0]);
      }
      ZeroHasNoBits(bits[0]);
    } else {
      assert BitsValue(bits) == x by {
        assert Pow2(8) == 256;
        BitsValueOfActiveBits(x, 8);
      }
    }
  }

  lemma {:induction false} JoinStartsWithFirst(names: seq<string>, sep: string)
    requires |names| > 0 && |names[0]| > 0
    ensures |Join(names, sep)| > 0 && Join(names, sep)[0] == names[0][0]
  {
  }

  /** The summary is 'nenhuma flag ativa' exactly when the flag byte is zero. */
  lemma FlagsSummaryOfByte(x: byte)
    ensures FlagsSummary(ActiveFlags(x)) == NoActiveFlags <==> x == 0
    ensures x != 0 ==> FlagsSummary(ActiveFlags(x)) == Join(ActiveFlags(x), ", ")
  {
    var names := ActiveFlags(x);
    ActiveFlagsEmpty(x);
    if x != 0 {
      JoinStartsWithFirst(names, ", ");
      assert Join(names, ", ")[0] in "BSTU";
      assert NoActiveFlags[0] == 'n';
    }
  }

  /** Digit `i` of `extra_flags_binary` is '1' exactly when flag `7 - i` is listed. */
  lemma BinaryMatchesFlags(x: byte, b: nat)
    requires b < 8
    ensures Binary(x, 8)[7 - b] == '1' <==> FlagName(b) in ActiveFlags(x)
  {
    BinaryDigitIsBit(x, 8, b);
  }

  /** A value below 256 has no flag bit above bit 7. */
  lemma FlagByteHasEightBits(x: byte, b: nat)
    requires b >= 8
    ensures !BitSet(x, b)
  {
    assert Pow2(8) == 256;
    HighBitsClear(x, 8, b);
  }

  // ---------------------------------------------------------------------------
  // The 'Q' reply decoder
  // ---------------------------------------------------------------------------

  /** Every accepted reply decodes to a u32 and five u16 readings. */
  lemma DecodeQReadingsInRange(resp: seq<byte>)
    requires |resp| >= MinReplyLength
    ensures DecodeQ(resp).Some?
    ensures var rd := DecodeQ(resp).value.readings;
      && rd.vin < 0x1_0000_0000
      && rd.vout < 0x1_0000 && rd.loadPercent < 0x1_0000 && rd.frequency < 0x1_0000
      && rd.batteryPercent < 0x1_0000 && rd.temperature < 0x1_0000
  {
    assert Pow256(2) == 0x1_0000;
    assert Pow256(4) == 0x1_0000_0000;
  }

  /** Decoding a reply the device encoded gives back the readings and the flag byte. */
  lemma DecodeQOfEncodeQReply(status: byte, rd: Readings, flags: byte)
    requires rd.vin < Pow256(4)
    requires rd.vout < Pow256(2) && rd.loadPercent < Pow256(2) && rd.frequency < Pow256(2)
    requires rd.batteryPercent < Pow256(2) && rd.temperature < Pow256(2)
    ensures DecodeQ(EncodeQReply(status, rd, flags)).Some?
    ensures DecodeQ(EncodeQReply(status, rd, flags)).value.readings == rd
    ensures DecodeQ(EncodeQReply(status, rd, flags)).value.flagsRaw == flags
    ensures DecodeQ(EncodeQReply(status, rd, flags)).value.activeFlags == ActiveFlags(flags)
  {
    var resp := EncodeQReply(status, rd, flags);
    assert resp[1..5] == ToBigEndian(rd.vin, 4);
    assert resp[5..7] == ToBigEndian(rd.vout, 2);
    assert resp[7..9] == ToBigEndian(rd.loadPercent, 2);
    assert resp[9..11] == ToBigEndian(rd.frequency, 2);
    assert resp[11..13] == ToBigEndian(rd.batteryPercent, 2);
    assert resp[13..15] == ToBigEndian(rd.temperature, 2);
    BigEndianOfToBigEndian(rd.vin, 4);
    BigEndianOfToBigEndian(rd.vout, 2);
    BigEndianOfToBigEndian(rd.loadPercent, 2);
    BigEndianOfToBigEndian(rd.frequency, 2);
    BigEndianOfToBigEndian(rd.batteryPercent, 2);
    BigEndianOfToBigEndian(rd.temperature, 2);
  }

  /** The decoded fields depend only on bytes 1..15: not on the status byte,
      not on trailing bytes, and not on whether a terminator was dropped. */
  lemma DecodeQIgnoresEnvelope(a: seq<byte>, b: seq<byte>)
    requires |a| >= MinReplyLength && |b| >= MinReplyLength
    requires a[1..16] == b[1..16]
    ensures DecodeQ(a).Some? && DecodeQ(b).Some?
    ensures DecodeQ(a).value.readings == DecodeQ(b).value.readings
    ensures DecodeQ(a).value.flagsRaw == DecodeQ(b).value.flagsRaw
    ensures DecodeQ(a).value.flagsBinary == DecodeQ(b).value.flagsBinary
    ensures DecodeQ(a).value.activeFlags == DecodeQ(b).value.activeFlags
    ensures DecodeQ(a).value.activeFlagsStr == DecodeQ(b).value.activeFlagsStr
  {
    forall i | 1 <= i < 16
      ensures a[i] == b[i]
    {
      assert a[i] == a[1..16][i - 1];
    }
    assert a[1..5] == b[1..5] && a[5..7] == b[5..7] && a[7..9] == b[7..9];
    assert a[9..11] == b[9..11] && a[11..13] == b[11..13] && a[13..15] == b[13..15];
  }

  /** `raw_response_hex` is the hex text of exactly the bytes left after
      dropping at most one trailing CR, and those are at least 16. */
  lemma DecodeQRawHex(resp: seq<byte>)
    requires |resp| >= MinReplyLength
    ensures DecodeQ(resp).Some?
    ensures Unhex(DecodeQ(resp).value.rawHex) == Some(StripTerminator(resp))
    ensures |StripTerminator(resp)| >= 16
    ensures resp[|resp| - 1] == CR <==> |StripTerminator(resp)| == |resp| - 1
  {
    UnhexOfHex(StripTerminator(resp));
  }

  /** The decoded flag list is the flag list of byte 15 of the reply. */
  lemma DecodeQActiveFlags(resp: seq<byte>)
    requires |resp| >= MinReplyLength
    ensures DecodeQ(resp).Some?
    ensures DecodeQ(resp).value.activeFlags == ActiveFlags(resp[15])
  {
    assert StripTerminator(resp)[15] == resp[15];
  }

  /** The flag views of a decoded reply agree with each other and with byte 15. */
  lemma DecodeQFlags(resp: seq<byte>)
    requires |resp| >= MinReplyLength
    ensures DecodeQ(resp).Some?
    ensures var st := DecodeQ(resp).value;
      && (forall b: nat :: b < 8 ==> (FlagName(b) in st.activeFlags <==> BitSet(resp[15], b)))
      && (forall b: nat :: b < 8 ==> (st.flagsBinary[7 - b] == '1' <==> BitSet(resp[15], b)))
      && FlagsByte(st.activeFlags) == resp[15]
      && (st.activeFlagsStr == NoActiveFlags <==> resp[15] == 0)
      && FromBinary(st.flagsBinary) == resp[15]
  {
    var x := resp[15];
    forall b: nat | b < 8
      ensures FlagName(b) in ActiveFlags(x) <==> BitSet(x, b)
      ensures Binary(x, 8)[7 - b] == '1' <==> BitSet(x, b)
    {
        BinaryDigitIsBit(x, 8, b);
    }
    FlagsByteOfActiveFlags(x);
    FlagsSummaryOfByte(x);
    assert Pow2(8) == 256;
    FromBinaryOfBinary(x, 8);
  }

  lemma BigEndianOf2(s: seq<byte>)
    requires |s| == 2
    ensures BigEndian(s) == s[0] as int * 256 + s[1]
  {
    assert s[..1][..0] == [];
  }

  lemma BigEndianOf4(s: seq<byte>)
    requires |s| == 4
    ensures BigEndian(s) == ((s[0] as int * 256 + s[1]) * 256 + s[2]) * 256 + s[3]
  {
    assert s[..3][..2] == s[..2];
    BigEndianOf2(s[..2]);
  }

  /** A 17-byte reply: status 0x00, vin 0x00000960, vout 0x00E6, load 0x0000,
      frequency 0x0258, battery 0x0384, temperature 0x01F4, flags 0x81, CR. */
  function ExampleReply(): (resp: seq<byte>)
    ensures |resp| == 17
  {
    [0x00, 0x00, 0x00, 0x09, 0x60, 0x00, 0xE6, 0x00, 0x00, 0x02, 0x58, 0x03, 0x84, 0x01, 0xF4, 0x81, 0x0D]
  }

  /** The readings of any long-enough reply, written out byte by byte. */
  lemma DecodeQReadingsBytes(resp: seq<byte>)
    requires |resp| >= MinReplyLength
    ensures var rd := DecodeQ(resp).value.readings;
      && rd.vin == ((resp[1] as int * 256 + resp[2]) * 256 + resp[3]) * 256 + resp[4]
      && rd.vout == resp[5] as int * 256 + resp[6]
      && rd.loadPercent == resp[7] as int * 256 + resp[8]
      && rd.frequency == resp[9] as int * 256 + resp[10]
      && rd.batteryPercent == resp[11] as int * 256 + resp[12]
      && rd.temperature == resp[13] as int * 256 + resp[14]
  {
    BigEndianOf4(resp[1..5]);
    BigEndianOf2(resp[5..7]);
    BigEndianOf2(resp[7..9]);
    BigEndianOf2(resp[9..11]);
    BigEndianOf2(resp[11..13]);
    BigEndianOf2(resp[13..15]);
  }

  /** The example reply decodes to vin 240.0 V, vout 23.0 V, load 0 %, 60.0 Hz,
      battery 90.0 % and 50.0 degrees, all in tenths. */
  lemma DecodeQExampleReadings()
    ensures DecodeQ(ExampleReply()).Some?
    ensures DecodeQ(ExampleReply()).value.readings == Readings(2400, 230, 0, 600, 900, 500)
  {
    ExampleReadingsBytes(ExampleReply());
  }

  lemma ExampleReadingsBytes(resp: seq<byte>)
    requires |resp| >= MinReplyLength
    requires resp[1] == 0 && resp[2] == 0 && resp[3] == 0x09 && resp[4] == 0x60
    requires resp[5] == 0 && resp[6] == 0xE6 && resp[7] == 0 && resp[8] == 0
    requires resp[9] == 0x02 && resp[10] == 0x58 && resp[11] == 0x03 && resp[12] == 0x84
    requires resp[13] == 0x01 && resp[14] == 0xF4
    ensures DecodeQ(resp).Some?
    ensures DecodeQ(resp).value.readings == Readings(2400, 230, 0, 600, 900, 500)
  {
    DecodeQReadingsBytes(resp);
  }

  /** Flag byte 0x81 of the example reply: battery in use and beeper on. */
  lemma DecodeQExampleFlags()
    ensures DecodeQ(ExampleReply()).Some?
    ensures DecodeQ(ExampleReply()).value.activeFlags == ["BateriaEmUso", "BeepLigado"]
    ensures DecodeQ(ExampleReply()).value.activeFlagsStr == "BateriaEmUso, BeepLigado"
  {
    var resp := ExampleReply();
    assert resp[15] == 0x81;
    ActiveFlagsOf0x81();
  }

  /** The same bytes without the CR are one byte short of the length guard. */
  lemma DecodeQExampleWithoutTerminator()
    ensures DecodeQ(ExampleReply()[..16]).None?
  {
  }

  lemma ActiveFlagsOf0x81()
    ensures ActiveFlags(0x81) == ["BateriaEmUso", "BeepLigado"]
    ensures FlagsSummary(ActiveFlags(0x81)) == "BateriaEmUso, BeepLigado"
  {
    ActiveFlagNamesOf0x81();
    SummaryOfTwo(ActiveFlags(0x81), "BateriaEmUso", "BeepLigado");
    SummaryOf0x81Spelled();
  }

  lemma SummaryOf0x81Spelled()
    ensures "BateriaEmUso" + ", " + "BeepLigado" == "BateriaEmUso, BeepLigado"
  {
  }

  lemma ActiveFlagNamesOf0x81()
    ensures ActiveFlags(0x81) == ["BateriaEmUso", "BeepLigado"]
  {
    ActiveBitsOf0x81();
    var names := ActiveFlags(0x81);
    assert names[0] == FlagName(7) && names[1] == FlagName(0);
  }

  lemma SummaryOfTwo(names: seq<string>, a: string, b: string)
    requires names == [a, b]
    ensures FlagsSummary(names) == a + ", " + b
  {
    assert names[1..] == [b];
    assert Join(names[1..], ", ") == b;
    assert Join(names, ", ") == a + ", " + b;
  }

  lemma ActiveBitsOf0x81()
    ensures ActiveBits(0x81, 8) == [7, 0]
  {
    ActiveBitsOfPow2(7);
    assert Pow2(6) == 0x40;
    assert Shift([6]) == [7];
  }

  /** The only set bit of 2^(k-1) below k is bit k-1. */
  lemma {:induction false} ActiveBitsOfPow2(k: nat)
    requires k >= 1
    ensures ActiveBits(Pow2(k - 1), k) == [k - 1]
  {
    if k == 1 {
      assert ActiveBits(1, 1) == [0];
    } else {
      var p := Pow2(k - 2);
      assert Pow2(k - 1) == 2 * p;
      ActiveBitsOfPow2(k - 1);
      assert (2 * p) / 2 == p && (2 * p) % 2 == 0;
      assert ActiveBits(2 * p, k) == Shift(ActiveBits(p, k - 1));
      assert Shift([k - 2]) == [k - 1];
    }
  }

}
