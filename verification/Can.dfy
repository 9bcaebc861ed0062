/** The CAN frame: its fields, the struct the programs update, and the bytes a checksum covers. */
module Can {
  import opened Xor

  const MAX_DATA_LEN: nat := 8
  const MAC_LEN: nat := 32
  const HEADER_LEN: nat := 5

  datatype FrameFields = FrameFields(
    id: bv32,
    dlc: byte,
    data: seq<byte>,
    crc: bv32,
    mac: seq<byte>,
    secured: bool,
    timestamp: bv64)

  // A frame as it travels: the struct's two arrays have fixed sizes.
  type Frame = f: FrameFields | |f.data| == MAX_DATA_LEN && |f.mac| == MAC_LEN
    witness FrameFields(0, 0, seq(MAX_DATA_LEN, _ => 0), 0, seq(MAC_LEN, _ => 0), false, 0)

  // Number of payload bytes a checksum covers: the loop stops at dlc or at 8.
  function PayloadLen(dlc: byte): (n: nat)
    ensures n <= MAX_DATA_LEN
    ensures n <= dlc as nat && n <= 8 && (n == dlc as nat || n == 8)
  {
    if dlc as nat < MAX_DATA_LEN then dlc as nat else MAX_DATA_LEN
  }

  function IdByte(id: bv32, k: nat): (b: byte)
    requires k < 4
  {
    match k
    case 0 => ((id >> 24) & 0xFF) as byte
    case 1 => ((id >> 16) & 0xFF) as byte
    case 2 => ((id >> 8) & 0xFF) as byte
    case 3 => (id & 0xFF) as byte
  }

  function Header(id: bv32, dlc: byte): (buf: seq<byte>)
    ensures |buf| == HEADER_LEN
  {
    [IdByte(id, 0), IdByte(id, 1), IdByte(id, 2), IdByte(id, 3), dlc]
  }

  // The buffer over which CRC and MAC are computed: big-endian id, dlc, payload.
  function Serialize(f: Frame): (buf: seq<byte>)
    ensures |buf| == HEADER_LEN + PayloadLen(f.dlc) <= 13
    ensures buf[4] == f.dlc && buf[5..] == f.data[..PayloadLen(f.dlc)]
  {
    Header(f.id, f.dlc) + f.data[..PayloadLen(f.dlc)]
  }

  // The value of four bytes, most significant first; the sum cannot wrap.
  function BigEndian(b: seq<byte>): (id: bv32)
    requires |b| >= 4
  {
    (b[0] as bv32) * 0x100_0000 + (b[1] as bv32) * 0x1_0000 + (b[2] as bv32) * 0x100 + b[3] as bv32
  }

  lemma IdIsBigEndian(f: Frame)
    ensures BigEndian(Serialize(f)) == f.id
  {
    IdFromBytes(f.id);
  }

  lemma IdFromBytes(id: bv32)
    ensures (IdByte(id, 0) as bv32) * 0x100_0000 + (IdByte(id, 1) as bv32) * 0x1_0000
            + (IdByte(id, 2) as bv32) * 0x100 + IdByte(id, 3) as bv32 == id
  {}

  lemma IdBytesInjective(a: bv32, b: bv32)
    requires forall k :: 0 <= k < 4 ==> IdByte(a, k) == IdByte(b, k)
    ensures a == b
  {
    assert IdByte(a, 0) == IdByte(b, 0) && IdByte(a, 1) == IdByte(b, 1);
    assert IdByte(a, 2) == IdByte(b, 2) && IdByte(a, 3) == IdByte(b, 3);
  }

  // The buffer determines, and is determined by, exactly the covered fields.
  lemma SerializeInjective(f: Frame, g: Frame)
    ensures Serialize(f) == Serialize(g) <==>
              && f.id == g.id
              && f.dlc == g.dlc
              && f.data[..PayloadLen(f.dlc)] == g.data[..PayloadLen(g.dlc)]
  {
    hide IdByte;
    var s, t := Serialize(f), Serialize(g);
    if s == t {
      assert s[4] == f.dlc && t[4] == g.dlc;
      assert s[5..] == f.data[..PayloadLen(f.dlc)] && t[5..] == g.data[..PayloadLen(g.dlc)];
      forall k | 0 <= k < 4
        ensures IdByte(f.id, k) == IdByte(g.id, k)
      {
        assert s[k] == IdByte(f.id, k) && t[k] == IdByte(g.id, k);
      }
      IdBytesInjective(f.id, g.id);
    }
  }

  // The struct that senders fill in and the HSM completes in place.
  class CanFrame {
    var id: bv32
    var dlc: byte
    const data: array<byte>
    var crc: bv32
    const mac: array<byte>
    var secured: bool
    var timestamp: bv64

    ghost predicate Valid() {
      data.Length == MAX_DATA_LEN && mac.Length == MAC_LEN && data != mac
    }

    ghost function Value(): (f: Frame)
      requires Valid()
      reads this, data, mac
    {
      FrameFields(id, dlc, data[..], crc, mac[..], secured, timestamp)
    }

    // A zero-initialised frame, as the senders declare it.
    constructor ()
      ensures Valid() && fresh(data) && fresh(mac)
      ensures Value() == FrameFields(0, 0, seq(MAX_DATA_LEN, _ => 0), 0, seq(MAC_LEN, _ => 0), false, 0)
    {
      id, dlc, crc, secured, timestamp := 0, 0, 0, false, 0;
      data := new byte[MAX_DATA_LEN](_ => 0);
      mac := new byte[MAC_LEN](_ => 0);
    }

    // Overwrites every field with a received frame, as recv does.
    method Fill(f: Frame)
      requires Valid()
      modifies this, data, mac
      ensures Value() == f
    {
      id, dlc, crc, secured, timestamp := f.id, f.dlc, f.crc, f.secured, f.timestamp;
      forall i | 0 <= i < MAX_DATA_LEN {
        data[i] := f.data[i];
      }
      forall i | 0 <= i < MAC_LEN {
        mac[i] := f.mac[i];
      }
    }

    // The snapshot that send puts on the wire.
    method Snapshot() returns (f: Frame)
      requires Valid()
      ensures f == Value()
    {
      f := FrameFields(id, dlc, data[..], crc, mac[..], secured, timestamp);
    }

    // Fills buf with the covered bytes, as each HSM operation does first.
    method SerializeInto(buf: array<byte>) returns (len: nat)
      requires Valid() && buf.Length == 13 && buf != data && buf != mac
      modifies buf
      ensures len <= buf.Length && buf[..len] == Serialize(Value())
      ensures len == 5 + PayloadLen(dlc) && buf[4] == dlc && buf[5..len] == data[..PayloadLen(dlc)]
      ensures BigEndian(buf[..len]) == id
    {
      hide Header, BigEndian;
      PutHeader(buf);
      len := HEADER_LEN;
      var i := 0;
      while i < dlc as nat && i < MAX_DATA_LEN
        invariant i <= PayloadLen(dlc)
        invariant len == HEADER_LEN + i
        invariant buf[..len] == Header(id, dlc) + data[..i]
      {
        buf[len] := data[i];
        assert buf[..len + 1] == buf[..len] + [data[i]];
        len := len + 1;
        i := i + 1;
      }
      IdIsBigEndian(Value());
      assert buf[4] == buf[..len][4] && buf[5..len] == buf[..len][5..];
    }

    method PutHeader(buf: array<byte>)
      requires buf.Length >= HEADER_LEN
      modifies buf
      ensures buf[..HEADER_LEN] == Header(id, dlc)
    {
      hide IdByte;
      buf[0] := IdByte(id, 0);
      buf[1] := IdByte(id, 1);
      buf[2] := IdByte(id, 2);
      buf[3] := IdByte(id, 3);
      buf[4] := dlc;
    }
  }
}
