/** Frame protection by the HSM: key derivation, the XOR-fold MAC, protect and verify. */
module Hsm {
  import opened Xor
  import opened Can
  import Crc32

  const KEY_SIZE: nat := 32

  // ---------- Specification ----------

  function Index(i: nat): (b: byte)
    requires i < 256
  {
    i as byte
  }

  // The communication key of the ECU called name.
  function CommKey(name: seq<byte>): (key: seq<byte>)
    requires name != []
    ensures |key| == KEY_SIZE
  {
    seq(KEY_SIZE, i requires 0 <= i < KEY_SIZE => Sum(name[i % |name|], Index(i)))
  }

  // One accumulator byte spread over the 32 bytes of the tag.
  function Spread(acc: byte): (tag: seq<byte>)
    ensures |tag| == MAC_LEN
  {
    seq(MAC_LEN, i requires 0 <= i < MAC_LEN => Sum(acc, Index(i)))
  }

  function Mac(key: seq<byte>, buf: seq<byte>): (tag: seq<byte>)
    ensures |tag| == MAC_LEN
  {
    Spread(Sum(XorAll(key), XorAll(buf)))
  }

  function Protect(key: seq<byte>, f: Frame): (g: Frame) {
    var buf := Serialize(f);
    f.(crc := Crc32.Crc(buf), mac := Mac(key, buf), secured := true)
  }

  predicate MacOk(key: seq<byte>, f: Frame) {
    f.mac == Mac(key, Serialize(f))
  }

  predicate FrameOk(key: seq<byte>, f: Frame) {
    f.crc == Crc32.Crc(Serialize(f)) && MacOk(key, f)
  }

  // ---------- The context and its operations ----------

  class HsmContext {
    const commKey: array<byte>

    ghost predicate Valid() {
      commKey.Length == KEY_SIZE
    }

    ghost function Key(): (key: seq<byte>)
      reads commKey
    {
      commKey[..]
    }

    constructor (name: seq<byte>)
      requires name != []
      ensures Valid() && fresh(commKey)
      ensures Key() == CommKey(name)
    {
      commKey := new byte[KEY_SIZE](_ => 0);
      new;
      var i := 0;
      while i < KEY_SIZE
        invariant 0 <= i <= KEY_SIZE
        invariant forall k :: 0 <= k < i ==> commKey[k] == CommKey(name)[k]
      {
        commKey[i] := Sum(name[i % |name|], Index(i));
        i := i + 1;
      }
    }

    // The placeholder MAC: fold key and data into one byte, then spread it.
    method HmacDummy(data: array<byte>, len: nat, out: array<byte>)
      requires Valid() && len <= data.Length && out.Length == MAC_LEN
      requires out != commKey && out != data
      modifies out
      ensures out[..] == Mac(Key(), data[..len])
    {
      hide Spread, Sum;
      var acc := FoldInto(0, commKey, KEY_SIZE);
      acc := FoldInto(acc, data, len);
      assert commKey[..KEY_SIZE] == Key();
      SumZero(XorAll(Key()));
      SpreadInto(acc, out);
    }

    method VerifyMac(frame: CanFrame?) returns (ok: bool)
      requires Valid() && (frame != null ==> frame.Valid())
      ensures ok == (frame != null && MacOk(Key(), frame.Value()))
    {
      if frame == null {
        return false;
      }
      var buf := new byte[13](_ => 0);
      var len := frame.SerializeInto(buf);
      var tag := new byte[MAC_LEN](_ => 0);
      HmacDummy(buf, len, tag);
      ok := tag[..] == frame.mac[..];
    }

    method ProtectFrame(frame: CanFrame?) returns (ok: bool)
      requires Valid() && (frame != null ==> frame.Valid() && frame.mac != commKey)
      modifies if frame == null then {} else {frame, frame.mac}
      ensures ok == (frame != null)
      ensures frame != null ==> frame.Value() == Protect(Key(), old(frame.Value()))
    {
      hide Crc32.Crc;
      if frame == null {
        return false;
      }
      var buf := new byte[13](_ => 0);
      var len := frame.SerializeInto(buf);
      frame.crc := Crc32.Compute(buf, len);
      HmacDummy(buf, len, frame.mac);
      frame.secured := true;
      ok := true;
    }

    method VerifyFrame(frame: CanFrame?) returns (ok: bool)
      requires Valid() && (frame != null ==> frame.Valid())
      ensures ok == (frame != null && FrameOk(Key(), frame.Value()))
    {
      hide Crc32.Crc;
      if frame == null {
        return false;
      }
      var buf := new byte[13](_ => 0);
      var len := frame.SerializeInto(buf);
      var crc := Crc32.Compute(buf, len);
      if crc != frame.crc {
        return false;
      }
      var tag := new byte[MAC_LEN](_ => 0);
      HmacDummy(buf, len, tag);
      ok := tag[..] == frame.mac[..];
    }
  }

  method SpreadInto(acc: byte, out: array<byte>)
    requires out.Length == MAC_LEN
    modifies out
    ensures out[..] == Spread(acc)
  {
    hide Index, Sum;
    var i := 0;
    while i < MAC_LEN
      invariant 0 <= i <= MAC_LEN
      invariant forall k :: 0 <= k < i ==> out[k] == Spread(acc)[k]
    {
      out[i] := Sum(acc, Index(i));
      i := i + 1;
    }
  }

  // ---------- Keys and tags, byte by byte ----------

  lemma IndexIsPosition(i: nat)
    requires i < 32
    ensures Index(i) as nat == i
  {}

  // Taking its position off a key byte gives back the name, repeated from the front.
  lemma NameInKey(name: seq<byte>, i: nat)
    requires name != [] && i < 32
    ensures |CommKey(name)| == 32
    ensures Sum(CommKey(name)[i], Index(i)) == name[i % |name|]
    ensures Index(i) as nat == i
  {
    hide Index, Sum;
    IndexIsPosition(i);
    SumAssociates(name[i % |name|], Index(i), Index(i));
    SumZero(Index(i));
    SumZero(name[i % |name|]);
  }

  // A tag starts with the fold of key and buffer, and byte i differs from the first by i.
  predicate IsTagOf(tag: seq<byte>, covered: seq<byte>) {
    && |tag| == 32
    && tag[0] == XorAll(covered)
    && forall i :: 0 <= i < 32 ==> Sum(tag[i], tag[0]) as nat == i
  }

  lemma SpreadBytes(acc: byte, i: nat)
    requires i < MAC_LEN
    ensures Spread(acc)[0] == acc && Sum(Spread(acc)[i], acc) == Index(i)
    ensures Sum(Spread(acc)[i], acc) as nat == i
  {
    hide Index, Sum;
    FirstIndex(acc);
    IndexIsPosition(i);
    SumCommutes(acc, Index(i));
    SumAssociates(Index(i), acc, acc);
    SumZero(acc);
    SumZero(Index(i));
  }

  // Such a tag is unique.
  lemma TagIsMac(key: seq<byte>, buf: seq<byte>, tag: seq<byte>)
    ensures IsTagOf(tag, key + buf) <==> tag == Mac(key, buf)
  {
    hide Index, Sum, XorAll, Spread;
    var mac, acc := Mac(key, buf), XorAll(key + buf);
    XorAllAppend(key, buf);
    forall i | 0 <= i < MAC_LEN
      ensures mac[0] == acc && Sum(mac[i], acc) == Index(i) && Sum(mac[i], acc) as nat == i
    {
      SpreadBytes(acc, i);
    }
    SpreadBytes(acc, 0);
    if IsTagOf(tag, key + buf) {
      forall i | 0 <= i < MAC_LEN
        ensures tag[i] == mac[i]
      {
        SpreadBytes(acc, i);
        SameNumber(Sum(tag[i], acc), Sum(mac[i], acc));
        SumInjective(tag[i], mac[i], acc);
      }
    }
  }

  lemma SameNumber(x: byte, y: byte)
    requires x as nat == y as nat
    ensures x == y
  {}

  // ---------- The tag carries exactly the fold ----------

  lemma SpreadInjective(x: byte, y: byte)
    ensures Spread(x) == Spread(y) <==> x == y
  {
    hide Index, Sum;
    if Spread(x) == Spread(y) {
      assert Spread(x)[0] == Spread(y)[0];
      FirstIndex(x);
      FirstIndex(y);
    }
  }

  lemma FirstIndex(x: byte)
    ensures Sum(x, Index(0)) == x
  {}

  // Two keys give a buffer the same tag exactly when they fold to the same byte.
  lemma SameTagForKeys(ka: seq<byte>, kb: seq<byte>, buf: seq<byte>)
    ensures Mac(ka, buf) == Mac(kb, buf) <==> XorAll(ka) == XorAll(kb)
  {
    hide Spread, XorAll, Sum;
    var b := XorAll(buf);
    SpreadInjective(Sum(XorAll(ka), b), Sum(XorAll(kb), b));
    SumInjective(XorAll(ka), XorAll(kb), b);
  }

  // Two buffers get the same tag under one key exactly when they fold to the same byte.
  lemma SameTagForBuffers(key: seq<byte>, a: seq<byte>, b: seq<byte>)
    ensures Mac(key, a) == Mac(key, b) <==> XorAll(a) == XorAll(b)
  {
    hide Spread, XorAll, Sum;
    var k := XorAll(key);
    SpreadInjective(Sum(k, XorAll(a)), Sum(k, XorAll(b)));
    SumCommutes(k, XorAll(a));
    SumCommutes(k, XorAll(b));
    SumInjective(XorAll(a), XorAll(b), k);
  }

  // ---------- Protect and verify ----------

  // The covered fields of a frame: all that the two checks read besides crc and mac.
  ghost predicate SameCovered(f: Frame, g: Frame) {
    && f.id == g.id
    && f.dlc == g.dlc
    && f.data[..PayloadLen(f.dlc)] == g.data[..PayloadLen(g.dlc)]
  }

  // A protected frame is accepted by another context if and only if the key folds agree,
  // by either check; the payload, the dlc and the flags play no part.
  lemma Interoperates(ka: seq<byte>, kb: seq<byte>, f: Frame)
    ensures FrameOk(kb, Protect(ka, f)) <==> XorAll(ka) == XorAll(kb)
    ensures MacOk(kb, Protect(ka, f)) <==> XorAll(ka) == XorAll(kb)
  {
    hide Mac, XorAll, Crc32.Crc;
    SerializeInjective(f, Protect(ka, f));
    SameTagForKeys(ka, kb, Serialize(f));
  }

  lemma ProtectIdempotent(key: seq<byte>, f: Frame)
    ensures Protect(key, Protect(key, f)) == Protect(key, f)
    ensures FrameOk(key, Protect(key, f))
    ensures Protect(key, f).secured
    ensures SameCovered(f, Protect(key, f))
  {
    hide XorAll, Crc32.Crc, Mac;
    Interoperates(key, key, f);
    SerializeInjective(f, Protect(key, f));
  }

  // Protecting changes crc, mac and secured and nothing else.
  lemma ProtectKeepsTheRest(key: seq<byte>, f: Frame)
    ensures var g := Protect(key, f);
            && g == f.(crc := g.crc, mac := g.mac, secured := true)
            && g.crc == Crc32.Crc(Serialize(f))
            && IsTagOf(g.mac, key + Serialize(f))
  {
    hide Mac, XorAll, Crc32.Crc;
    TagIsMac(key, Serialize(f), Mac(key, Serialize(f)));
  }

  // Main result: a frame passes full verification iff its crc is the checksum of the covered bytes
  // and its mac the tag of key and covered bytes, all 32 bytes of it; it passes the MAC check iff
  // the latter holds. In both cases that is what protecting it would have put there.
  lemma AcceptsExactly(key: seq<byte>, f: Frame)
    ensures MacOk(key, f) <==> IsTagOf(f.mac, key + Serialize(f))
    ensures FrameOk(key, f) <==> f.crc == Crc32.Crc(Serialize(f)) && IsTagOf(f.mac, key + Serialize(f))
    ensures MacOk(key, f) <==> f.mac == Protect(key, f).mac
    ensures FrameOk(key, f) <==> f.(secured := true) == Protect(key, f)
  {
    hide Mac, XorAll, Crc32.Crc, IsTagOf;
    TagIsMac(key, Serialize(f), f.mac);
  }

  // The MAC check by itself accepts one tag for given covered fields: change any byte of it and
  // the frame is rejected.
  lemma MacAcceptsOneTag(key: seq<byte>, f: Frame, g: Frame)
    requires SameCovered(f, g) && MacOk(key, f)
    ensures MacOk(key, g) <==> g.mac == f.mac
  {
    hide Mac, XorAll, IsTagOf;
    SerializeInjective(f, g);
    AcceptsExactly(key, f);
    AcceptsExactly(key, g);
    TagIsMac(key, Serialize(f), f.mac);
    TagIsMac(key, Serialize(f), g.mac);
  }

  lemma ChangedMacByteRejected(key: seq<byte>, f: Frame, i: nat, b: byte)
    requires MacOk(key, f) && i < MAC_LEN && b != f.mac[i]
    ensures !MacOk(key, f.(mac := f.mac[i := b])) && !FrameOk(key, f.(mac := f.mac[i := b]))
  {
    hide Mac, XorAll, Crc32.Crc, MacOk, FrameOk, IsTagOf, Serialize;
    var g := f.(mac := f.mac[i := b]);
    assert g.mac[i] == b;
    MacAcceptsOneTag(key, f, g);
    AcceptsExactly(key, g);
    AcceptsExactly(key, f);
  }

  // Acceptance depends on the covered fields, the crc and the mac, and on nothing else;
  // it pins crc and mac down completely.
  lemma VerifyDependsOnCovered(key: seq<byte>, f: Frame, g: Frame)
    requires SameCovered(f, g)
    ensures f.crc == g.crc && f.mac == g.mac ==> (FrameOk(key, f) <==> FrameOk(key, g))
    ensures f.mac == g.mac ==> (MacOk(key, f) <==> MacOk(key, g))
    ensures FrameOk(key, f) ==> (FrameOk(key, g) <==> f.crc == g.crc && f.mac == g.mac)
  {
    hide Mac, Crc32.Crc;
    SerializeInjective(f, g);
  }

  // A change under an unchanged tag slips past the MAC exactly when the fold is unchanged,
  // and past the full check exactly when the checksum is unchanged too.
  lemma TamperingDetected(key: seq<byte>, f: Frame, g: Frame)
    requires FrameOk(key, f) && g.crc == f.crc && g.mac == f.mac
    ensures MacOk(key, g) <==> XorAll(Serialize(f)) == XorAll(Serialize(g))
    ensures FrameOk(key, g) <==>
              XorAll(Serialize(f)) == XorAll(Serialize(g)) && Crc32.Crc(Serialize(f)) == Crc32.Crc(Serialize(g))
  {
    hide Mac, XorAll, Crc32.Crc;
    SameTagForBuffers(key, Serialize(f), Serialize(g));
  }

  // Main result: id and payload changes within any 32 consecutive bits of the covered bytes
  // are rejected by every context when dlc and crc stay as they were.
  lemma BurstRejected(key: seq<byte>, other: seq<byte>, f: Frame, g: Frame, k: nat)
    requires FrameOk(key, f)
    requires g.dlc == f.dlc && g.crc == f.crc && !SameCovered(f, g)
    requires Crc32.DifferOnlyWithin(Crc32.Bits(Serialize(f)), Crc32.Bits(Serialize(g)), k, 32)
    ensures !FrameOk(other, g)
  {
    hide Mac, XorAll, Crc32.Crc, Crc32.Bits;
    SerializeInjective(f, g);
    Crc32.BurstDetected(Serialize(f), Serialize(g), k);
  }

  lemma SerializedAt(f: Frame, i: nat)
    requires i < HEADER_LEN + PayloadLen(f.dlc)
    ensures Serialize(f)[i] == if i < 4 then IdByte(f.id, i) else if i == 4 then f.dlc else f.data[i - HEADER_LEN]
  {
    hide IdByte;
    if i < 4 {
      if i == 0 {} else if i == 1 {} else if i == 2 {} else {}
    }
  }

  // In fields: any other id with everything else as it was is rejected, under every key.
  lemma ChangedIdRejected(key: seq<byte>, other: seq<byte>, f: Frame, id: bv32)
    requires FrameOk(key, f) && id != f.id
    ensures !FrameOk(other, f.(id := id))
  {
    hide Mac, XorAll, Crc32.Crc, IdByte, Serialize;
    var g := f.(id := id);
    forall i | 0 <= i < |Serialize(f)| && Serialize(f)[i] != Serialize(g)[i]
      ensures 0 <= i < 4
    {
      SerializedAt(f, i);
      SerializedAt(g, i);
    }
    SerializeInjective(f, g);
    Crc32.ByteBurstDetected(Serialize(f), Serialize(g), 0);
  }

  // So is any change of the covered payload within four consecutive bytes.
  lemma ChangedPayloadRejected(key: seq<byte>, other: seq<byte>, f: Frame, data: seq<byte>, k: nat)
    requires FrameOk(key, f) && |data| == MAX_DATA_LEN
    requires data[..PayloadLen(f.dlc)] != f.data[..PayloadLen(f.dlc)]
    requires forall i :: 0 <= i < PayloadLen(f.dlc) && data[i] != f.data[i] ==> k <= i < k + 4
    ensures !FrameOk(other, f.(data := data))
  {
    hide Mac, XorAll, Crc32.Crc, IdByte, Serialize;
    var g := f.(data := data);
    forall i | 0 <= i < |Serialize(f)| && Serialize(f)[i] != Serialize(g)[i]
      ensures HEADER_LEN + k <= i < HEADER_LEN + k + 4
    {
      SerializedAt(f, i);
      SerializedAt(g, i);
    }
    SerializeInjective(f, g);
    Crc32.ByteBurstDetected(Serialize(f), Serialize(g), HEADER_LEN + k);
  }
}
