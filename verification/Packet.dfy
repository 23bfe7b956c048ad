/**
  The packet format of public/astPackage/astpackage.cpp: `PutData`, `GetData` and the encryption
  by identity, built on the streaming cipher and the streaming hash.
 */
module Packet {
  import opened Common
  import opened Sm4Cipher
  import opened Sm4Modes
  import opened Sm4OneShot
  import opened Sm4Stream
  import opened Sm3

  /** The tables of the cipher, and the compression and start value of the hash. */
  datatype Suite = Suite(t: Tables, cf: Compression, start: Regs)

  function Hash(s: Suite, d: seq<byte>): (h: seq<byte>)
    ensures |h| == 32
  {
    Digest(s.cf, s.start, d)
  }

  // ---------------------------------------------------------------- keys

  /** The key derived for one session or identity: a cipher key and a MAC key. */
  function Derived(s: Suite, root: seq<byte>, id: seq<byte>): (k: seq<byte>)
    ensures |k| == 32
  {
    Hash(s, root + id)
  }

  function KeyOf(t: Tables, master: seq<byte>): (k: Key)
    requires ValidTables(t) && |master| == 16
    ensures TwoWay(k)
  {
    var erk := RoundKeys(t, master);
    Key(erk, Reverse(erk))
  }

  function CipherKey(s: Suite, derived: seq<byte>): (k: Key)
    requires ValidTables(s.t) && |derived| == 32
    ensures TwoWay(k)
  {
    KeyOf(s.t, derived[..16])
  }

  function MacOf(s: Suite, derived: seq<byte>, d: seq<byte>): (m: seq<byte>)
    requires |derived| == 32
    ensures |m| == 32
  {
    Hash(s, d + derived[16..])
  }

  // ---------------------------------------------------------------- the packet

  predicate Encrypts(flag: byte) {
    flag & 1 != 0
  }

  predicate Macs(flag: byte) {
    flag & 2 != 0
  }

  datatype Header = Header(ver: byte, kind: byte, flag: byte, sid: seq<byte>, aid: seq<byte>)

  predicate ValidHeader(h: Header) {
    |h.sid| == 4 && |h.aid| == 16
  }

  const HEADER_SIZE: nat := 32

  /** The largest size that fits the source's `int`. */
  const MAX_SIZE: nat := 0x7fff_ffff

  function LengthField(n: nat): (b: seq<byte>)
    requires n <= MAX_SIZE
    ensures |b| == 4
  {
    PutBE32(W32(n))
  }

  /** `(int)zs_GetBE32`. */
  function FieldLength(b: seq<byte>): (n: int)
    requires |b| == 4
  {
    var w := b[0] as int * 0x100_0000 + b[1] as int * 0x1_0000 + b[2] as int * 0x100 + b[3] as int;
    if w > MAX_SIZE then w - WORD_32 else w
  }

  lemma LengthBack(n: nat)
    requires n <= MAX_SIZE
    ensures FieldLength(LengthField(n)) == n
  {
    hide GetBE32, PutBE32, NumberBytes;
    PutGet(NumberBytes(n));
    NumberBack(n);
  }

  function HeaderBytes(h: Header, n: nat, mac: seq<byte>): (b: seq<byte>)
    requires ValidHeader(h) && n <= MAX_SIZE && |mac| == 4
    ensures |b| == HEADER_SIZE
  {
    [h.ver, h.kind, h.flag, 0] + LengthField(n) + h.aid + h.sid + mac
  }

  /** The padding `PutData` makes room for. */
  function PadRoom(flag: byte, n: nat): (p: nat)
    ensures p <= 16
  {
    if Encrypts(flag) then PadCount(n) else 0
  }

  lemma PadRoomIs(flag: byte, n: nat)
    ensures PadRoom(flag, n) == if flag & 1 == 0 then 0 else 16 - n % 16
  {
  }

  /** `stale` is what the output buffer already held where padding was reserved. */
  function Body(s: Suite, derived: seq<byte>, flag: byte, data: seq<byte>, stale: seq<byte>): (b: seq<byte>)
    requires ValidTables(s.t) && |derived| == 32 && |stale| == PadRoom(flag, |data|)
    ensures |b| == |data| + PadRoom(flag, |data|)
  {
    if Encrypts(flag) && Macs(flag) then EcbEncrypted(s.t, CipherKey(s, derived), 1, data) else data + stale
  }

  function MacField(s: Suite, derived: seq<byte>, flag: byte, data: seq<byte>): (m: seq<byte>)
    requires |derived| == 32
    ensures |m| == 4
  {
    if Macs(flag) then MacOf(s, derived, data)[..4] else [0, 0, 0, 0]
  }

  /** A whole packet. */
  function PacketBytes(s: Suite, root: seq<byte>, h: Header, data: seq<byte>, stale: seq<byte>): (p: seq<byte>)
    requires ValidTables(s.t) && ValidHeader(h) && |stale| == PadRoom(h.flag, |data|)
    requires HEADER_SIZE + |data| + 16 <= MAX_SIZE
    ensures |p| == HEADER_SIZE + |data| + PadRoom(h.flag, |data|)
  {
    var derived := Derived(s, root, h.sid);
    var body := Body(s, derived, h.flag, data, stale);
    HeaderBytes(h, HEADER_SIZE + |body|, MacField(s, derived, h.flag, data)) + body
  }

  function PutCode(init: bool, macindex: int, flag: byte, n: nat, outlen: nat): (c: int) {
    if init && macindex != 0 then -1
    else if n + PadRoom(flag, n) + HEADER_SIZE > outlen then 1
    else if macindex == 0 && Encrypts(flag) then 2
    else 0
  }

  datatype Received = Received(header: Header, data: seq<byte>) | Refused(code: int)

  /** What is made of the body of a packet. */
  function OpenBody(s: Suite, derived: seq<byte>, flag: byte, body: seq<byte>, capacity: nat): (r: Unpadded)
    requires ValidTables(s.t) && |derived| == 32
  {
    if !(Encrypts(flag) && Macs(flag)) then Data(body)
    else if |body| < 16 || |body| % 16 != 0 then Error(2)
    else if |body| - 16 > capacity then Error(3)
    else
      match EcbDecrypted(s.t, CipherKey(s, derived), 1, body)
      case Error(_) => Error(4)
      case Data(p) => if capacity < |p| then Error(4) else if capacity == |p| then Error(5) else Data(p)
  }

  function ParsedHeader(m: seq<byte>): (h: Header)
    requires |m| >= HEADER_SIZE
    ensures ValidHeader(h)
  {
    Header(m[0], m[1], m[2], m[24..28], m[8..24])
  }

  /** What `GetData` makes of the memory of a message and the size the caller gives. */
  function Open(s: Suite, root: seq<byte>, refuse: bool, m: seq<byte>, msglen: nat, capacity: nat): (r: Received)
    requires ValidTables(s.t) && HEADER_SIZE <= |m| && (FieldLength(m[4..8]) == msglen ==> HEADER_SIZE <= msglen <= |m|)
  {
    if refuse then Refused(-1)
    else if FieldLength(m[4..8]) != msglen then Refused(1)
    else
      var h := ParsedHeader(m);
      var derived := Derived(s, root, h.sid);
      match OpenBody(s, derived, h.flag, m[HEADER_SIZE..msglen], capacity)
      case Error(c) => Refused(c)
      case Data(d) =>
        if Macs(h.flag) && MacOf(s, derived, d)[..4] != m[28..32] then Refused(6)
        else if !(Encrypts(h.flag) && Macs(h.flag)) && capacity <= |d| then Refused(7)
        else Received(h, d)
  }

  /** The derived key and its two halves, written out. */
  lemma KeysWritten(s: Suite, root: seq<byte>, id: seq<byte>, d: seq<byte>)
    requires ValidTables(s.t)
    ensures var k := Digest(s.cf, s.start, root + id);
            && Derived(s, root, id) == k
            && MacOf(s, k, d) == Digest(s.cf, s.start, d + k[16..])
            && CipherKey(s, k) == KeyOf(s.t, k[..16])
  {
    hide Digest, KeyOf;
  }

  /** The MAC depends on the second half of the derived key only, the encrypted body on the first only. */
  lemma HalvesSeparate(s: Suite, a: seq<byte>, b: seq<byte>, flag: byte, data: seq<byte>, stale: seq<byte>)
    requires ValidTables(s.t) && |a| == |b| == 32 && |stale| == PadRoom(flag, |data|)
    ensures a[16..] == b[16..] ==> MacOf(s, a, data) == MacOf(s, b, data)
    ensures a[..16] == b[..16] ==> Body(s, a, flag, data, stale) == Body(s, b, flag, data, stale)
  {
    hide Hash, EcbEncrypted, KeyOf, Encrypts, Macs;
  }

  /** The fields of a packet, written out from the root key, the header and the data. */
  ghost predicate OnTheWire(p: seq<byte>, s: Suite, root: seq<byte>, h: Header, data: seq<byte>, stale: seq<byte>)
    requires ValidTables(s.t)
  {
    var k := Digest(s.cf, s.start, root + h.sid);
    && |p| >= HEADER_SIZE
    && p[0] == h.ver && p[1] == h.kind && p[2] == h.flag && p[3] == 0
    && FieldLength(p[4..8]) == |p|
    && p[8..24] == h.aid && p[24..28] == h.sid
    && p[28..32] == (if h.flag & 2 != 0 then Digest(s.cf, s.start, data + k[16..])[..4] else [0, 0, 0, 0])
    && p[32..] == if h.flag & 1 != 0 && h.flag & 2 != 0 then EcbEncrypted(s.t, KeyOf(s.t, k[..16]), 1, data)
                  else data + stale
  }

  lemma PacketFields(s: Suite, root: seq<byte>, h: Header, data: seq<byte>, stale: seq<byte>)
    requires ValidTables(s.t) && ValidHeader(h) && |stale| == PadRoom(h.flag, |data|)
    requires HEADER_SIZE + |data| + 16 <= MAX_SIZE
    ensures OnTheWire(PacketBytes(s, root, h, data, stale), s, root, h, data, stale)
  {
    hide Digest, KeyOf, EcbEncrypted, FieldLength, LengthField, Derived, MacOf, CipherKey;
    KeysWritten(s, root, h.sid, data);
    var k := Digest(s.cf, s.start, root + h.sid);
    var body := Body(s, k, h.flag, data, stale);
    FieldsBack(h, HEADER_SIZE + |body|, MacField(s, k, h.flag, data), body);
  }

  /** The message `m` carries the data `d` under this root key: length, MAC and body agree. */
  ghost predicate Carries(m: seq<byte>, s: Suite, root: seq<byte>, h: Header, d: seq<byte>)
    requires ValidTables(s.t)
  {
    && |m| >= HEADER_SIZE && FieldLength(m[4..8]) == |m|
    && h == Header(m[0], m[1], m[2], m[24..28], m[8..24])
    && var k := Digest(s.cf, s.start, root + m[24..28]);
    && (m[2] & 2 != 0 ==> m[28..32] == Digest(s.cf, s.start, d + k[16..])[..4])
    && if m[2] & 1 != 0 && m[2] & 2 != 0
       then |m| > HEADER_SIZE && Whole(m[32..]) && EcbDecrypted(s.t, KeyOf(s.t, k[..16]), 1, m[32..]) == Data(d)
       else m[32..] == d
  }

  ghost predicate CarriesNoneBelow(m: seq<byte>, s: Suite, root: seq<byte>, capacity: nat)
    requires ValidTables(s.t)
  {
    forall h, d :: Carries(m, s, root, h, d) ==> |d| >= capacity
  }

  lemma RefusedAtOnce(s: Suite, root: seq<byte>, m: seq<byte>, msglen: nat, capacity: nat)
    requires ValidTables(s.t) && HEADER_SIZE <= |m| && (FieldLength(m[4..8]) == msglen ==> HEADER_SIZE <= msglen <= |m|)
    ensures Open(s, root, true, m, msglen, capacity) == Refused(-1)
  {
  }

  /** The receiver accepts exactly the messages that carry data shorter than its room, and gives that data. */
  lemma AcceptsExactly(s: Suite, root: seq<byte>, m: seq<byte>, capacity: nat, h: Header, d: seq<byte>)
    requires ValidTables(s.t) && HEADER_SIZE <= |m|
    ensures Open(s, root, false, m, |m|, capacity) == Received(h, d) <==>
            Carries(m, s, root, h, d) && |d| < capacity
  {
    hide Digest, KeyOf, EcbDecrypted, FieldLength, Derived, MacOf, CipherKey;
    KeysWritten(s, root, m[24..28], d);
    var body := m[HEADER_SIZE..|m|];
    assert body == m[32..];
    if body != [] && Whole(body) {
      ShortByABlock(s.t, CipherKey(s, Digest(s.cf, s.start, root + m[24..28])), body);
    }
  }

  /** What the body of a message with a MAC gives: its bytes, or their decryption when that fits. */
  ghost predicate Gives(m: seq<byte>, s: Suite, k: seq<byte>, capacity: nat, d: seq<byte>)
    requires ValidTables(s.t) && HEADER_SIZE <= |m| && |k| == 32
  {
    if m[2] & 1 == 0 then m[32..] == d
    else |m| > HEADER_SIZE && Whole(m[32..]) && EcbDecrypted(s.t, KeyOf(s.t, k[..16]), 1, m[32..]) == Data(d)
         && |d| < capacity
  }

  /** Code 6 is returned exactly for a message whose body gives data that its MAC is not of. */
  lemma RefusesMac(s: Suite, root: seq<byte>, m: seq<byte>, capacity: nat)
    requires ValidTables(s.t) && HEADER_SIZE <= |m|
    ensures var k := Digest(s.cf, s.start, root + m[24..28]);
            Open(s, root, false, m, |m|, capacity) == Refused(6) <==>
            && FieldLength(m[4..8]) == |m| && m[2] & 2 != 0
            && exists d :: Gives(m, s, k, capacity, d) && m[28..32] != Digest(s.cf, s.start, d + k[16..])[..4]
  {
    hide Digest, FieldLength, Derived, MacOf, OpenBody, Gives, Open;
    var k := Digest(s.cf, s.start, root + m[24..28]);
    var r := OpenBody(s, k, m[2], m[32..], capacity);
    MacCase(s, root, m, capacity);
    KeysWritten(s, root, m[24..28], if r.Data? then r.data else []);
    if m[2] & 2 != 0 {
      forall d ensures r == Data(d) <==> Gives(m, s, k, capacity, d) {
        BodyGives(s, k, m, capacity, d);
      }
    }
  }

  lemma MacCase(s: Suite, root: seq<byte>, m: seq<byte>, capacity: nat)
    requires ValidTables(s.t) && HEADER_SIZE <= |m|
    ensures var k := Derived(s, root, m[24..28]);
            var r := OpenBody(s, k, m[2], m[32..], capacity);
            Open(s, root, false, m, |m|, capacity) == Refused(6) <==>
            FieldLength(m[4..8]) == |m| && r.Data? && Macs(m[2]) && MacOf(s, k, r.data)[..4] != m[28..32]
  {
    hide FieldLength, Derived, MacOf, OpenBody, Macs, Encrypts;
    assert m[HEADER_SIZE..|m|] == m[32..];
    BodyRefusals(s, Derived(s, root, m[24..28]), m[2], m[32..], capacity);
  }

  lemma BodyGives(s: Suite, k: seq<byte>, m: seq<byte>, capacity: nat, d: seq<byte>)
    requires ValidTables(s.t) && HEADER_SIZE <= |m| && |k| == 32 && m[2] & 2 != 0
    ensures OpenBody(s, k, m[2], m[32..], capacity) == Data(d) <==> Gives(m, s, k, capacity, d)
  {
    hide KeyOf, EcbDecrypted;
    if m[32..] != [] && Whole(m[32..]) {
      ShortByABlock(s.t, KeyOf(s.t, k[..16]), m[32..]);
    }
  }

  lemma BodyRefusals(s: Suite, k: seq<byte>, flag: byte, body: seq<byte>, capacity: nat)
    requires ValidTables(s.t) && |k| == 32
    ensures var r := OpenBody(s, k, flag, body, capacity); r.Error? ==> 2 <= r.code <= 5
  {
    hide EcbDecrypted, CipherKey, Encrypts, Macs;
  }

  /** Unpadding takes at most a block away. */
  lemma ShortByABlock(t: Tables, k: Key, e: seq<byte>)
    requires Whole(e) && e != []
    ensures var r := EcbDecrypted(t, k, 1, e); r.Data? ==> |e| - 16 <= |r.data| < |e|
  {
    hide Dec;
  }

  lemma SplicedAtStart(before: seq<byte>, p: seq<byte>)
    requires |p| <= |before|
    ensures Splice(before, 0, p)[..|p|] == p
  {
  }

  lemma FieldsBack(h: Header, n: nat, mac: seq<byte>, body: seq<byte>)
    requires ValidHeader(h) && n <= MAX_SIZE && |mac| == 4
    ensures var p := HeaderBytes(h, n, mac) + body;
            && ParsedHeader(p) == h && FieldLength(p[4..8]) == n && p[28..32] == mac && p[HEADER_SIZE..] == body
  {
    hide LengthField, FieldLength;
    LengthBack(n);
    var p := HeaderBytes(h, n, mac) + body;
    assert p[4..8] == LengthField(n);
    assert p[8..24] == h.aid;
    assert p[24..28] == h.sid;
    assert p[28..32] == mac;
  }

  lemma BodyBack(s: Suite, derived: seq<byte>, flag: byte, data: seq<byte>, stale: seq<byte>, capacity: nat)
    requires ValidTables(s.t) && |derived| == 32 && |stale| == PadRoom(flag, |data|)
    ensures capacity > |data| && (Encrypts(flag) ==> Macs(flag)) ==>
              OpenBody(s, derived, flag, Body(s, derived, flag, data, stale), capacity) == Data(data)
    ensures Encrypts(flag) && !Macs(flag) ==>
              OpenBody(s, derived, flag, Body(s, derived, flag, data, stale), capacity) == Data(data + stale)
  {
    hide EcbEncrypted, EcbDecrypted, CipherKey, Encrypts, Macs;
    if Encrypts(flag) && Macs(flag) {
      EcbRoundTrip(s.t, CipherKey(s, derived), 1, data);
    } else if !Encrypts(flag) {
      assert data + stale == data;
    }
  }

  /**
    The round trip over a packet: the receiver gets the sender's header and exactly the data if
    and only if the flag does not ask for encryption without a MAC. In that remaining case the
    sender reserves padding but never encrypts, and the receiver takes the reserved bytes for data.
   */
  lemma PacketRoundTrip(s: Suite, root: seq<byte>, h: Header, data: seq<byte>, stale: seq<byte>, capacity: nat)
    requires ValidTables(s.t) && ValidHeader(h) && |stale| == PadRoom(h.flag, |data|)
    requires HEADER_SIZE + |data| + 16 <= MAX_SIZE && capacity > |data|
    ensures var p := PacketBytes(s, root, h, data, stale);
            && FieldLength(p[4..8]) == |p|
            && (Open(s, root, false, p, |p|, capacity) == Received(h, data) <==> (Encrypts(h.flag) ==> Macs(h.flag)))
            && (Encrypts(h.flag) && !Macs(h.flag) ==>
                  Open(s, root, false, p, |p|, capacity)
                  == if capacity <= |data + stale| then Refused(7) else Received(h, data + stale))
  {
    hide Body, OpenBody, MacOf, HeaderBytes, ParsedHeader, FieldLength, Encrypts, Macs, Derived;
    var p := PacketBytes(s, root, h, data, stale);
    var derived := Derived(s, root, h.sid);
    var body := Body(s, derived, h.flag, data, stale);
    var mac := MacField(s, derived, h.flag, data);
    FieldsBack(h, |p|, mac, body);
    assert p[HEADER_SIZE..|p|] == body;
    BodyBack(s, derived, h.flag, data, stale, capacity);
    StaleNeverEmpty(h.flag, data, stale);
  }

  lemma StaleNeverEmpty(flag: byte, data: seq<byte>, stale: seq<byte>)
    requires |stale| == PadRoom(flag, |data|)
    ensures Encrypts(flag) ==> data + stale != data
  {
    if Encrypts(flag) {
      assert |data + stale| > |data|;
    }
  }

  // ---------------------------------------------------------------- running the cipher

  lemma {:induction false} OnlyRoundKeys(t: Tables, k: Key, k': Key, mode: Mode, iv: Block, data: seq<byte>)
    requires k.erk == k'.erk && Whole(data)
    ensures Enc(t, k, mode, iv, data) == Enc(t, k', mode, iv, data)
    decreases |data|
  {
    hide Crypt, ToBlock, ToBytes, Xor;
    if data != [] {
      OnlyRoundKeys(t, k, k', mode, EncStep(t, k, mode, iv, data[..16]), data[16..]);
    }
  }

  /** One update and the final block encrypt the message. */
  lemma UpdateThenFinal(t: Tables, k: Key, iv: Block, d: seq<byte>)
    ensures var s0 := Stream(iv, []);
            UpdateOut(t, k, ECB, Encrypt, s0, d) + FinalEncrypt(t, k, ECB, 1, UpdateTo(t, k, ECB, Encrypt, s0, d)) ==
            EcbEncrypted(t, k, 1, d)
  {
    hide Enc, Padded, FeedOut, FeedTo, FinalEncrypt, UpdateOut, UpdateTo;
    assert Concat([d]) == d + Concat([]) == d;
    FeedIsUpdate(t, k, ECB, Encrypt, Stream(iv, []), [d]);
    StreamIsOneShot(t, k, 1, iv, [d]);
  }

  /** The sizes of the two outputs. */
  lemma SealSizes(t: Tables, k: Key, iv: Block, d: seq<byte>)
    ensures var s0 := Stream(iv, []);
            && |UpdateOut(t, k, ECB, Encrypt, s0, d)| == Cut(|d|)
            && |FinalEncrypt(t, k, ECB, 1, UpdateTo(t, k, ECB, Encrypt, s0, d))| == 16
            && Cut(|d|) + 16 == |Padded(1, d)|
  {
    hide Enc, UpdateOut;
    var s1 := UpdateTo(t, k, ECB, Encrypt, Stream(iv, []), d);
    assert |s1.pending| == |d| % 16;
    OneBlockOfPadding(s1.pending);
  }

  lemma OneBlockOfPadding(d: seq<byte>)
    requires |d| < 16
    ensures |Padded(1, d)| == 16
  {
  }

  /** What the two cipher calls write together, and their sizes. */
  lemma SealFacts(t: Tables, k: Key, master: seq<byte>, iv: Block, d: seq<byte>)
    requires ValidTables(t) && |master| == 16 && k.erk == RoundKeys(t, master)
    ensures var s0 := Stream(iv, []);
            var s1 := UpdateTo(t, k, ECB, Encrypt, s0, d);
            && |s1.pending| < 16
            && |UpdateOut(t, k, ECB, Encrypt, s0, d)| == Cut(|d|)
            && |FinalBytes(t, k, ECB, 1, 0, s1, [])| == 16 && Cut(|d|) + 16 == |Padded(1, d)|
            && UpdateOut(t, k, ECB, Encrypt, s0, d) + FinalBytes(t, k, ECB, 1, 0, s1, [])
               == EcbEncrypted(t, KeyOf(t, master), 1, d)
  {
    hide Enc, Padded, FinalEncrypt, FinalBytes, UpdateOut, UpdateTo, RoundKeys, Reverse, Cut;
    OnlyRoundKeys(t, k, KeyOf(t, master), ECB, ZERO_BLOCK, Padded(1, d));
    UpdateThenFinal(t, k, iv, d);
    SealSizes(t, k, iv, d);
    FinalMeans(t, k, ECB, 1, UpdateTo(t, k, ECB, Encrypt, Stream(iv, []), d));
  }

  const BLANK_KEY: Key := Key(seq(32, _ => 0), seq(32, _ => 0))

  /** `sm4_InitBlock`, `sm4_UpdateBlock` and `sm4_FinalBlock` as both senders call them; the code tells which failed. */
  method SealEcb(t: Tables, master: seq<byte>, data: seq<byte>, out: array<byte>, pos: nat, room: nat)
    returns (code: int, written: nat)
    requires ValidTables(t) && |master| == 16 && pos + room <= out.Length
    modifies out
    ensures code == if room < Cut(|data|) then 1 else if room < |Padded(1, data)| then 2 else 0
    ensures code == 0 ==>
              && written == |EcbEncrypted(t, KeyOf(t, master), 1, data)| <= room
              && out[..] == Splice(old(out[..]), pos, EcbEncrypted(t, KeyOf(t, master), 1, data))
  {
    hide Enc, EcbEncrypted, Padded, FinalBytes, UpdateOut, UpdateTo, RoundKeys, Reverse, KeyOf, Splice, Cut, BlockOf,
         StuckAt;
    var obj := new Sm4Obj(t, BLANK_KEY);
    var c := obj.Init(master, 0, 0, 1, [], false);
    assert obj.left[..0] == [];
    ghost var k, before, iv := obj.key, out[..], obj.State().iv;
    ghost var s0 := Stream(iv, []);
    SealFacts(t, k, master, iv, data);
    ghost var o1 := UpdateOut(t, k, ECB, Encrypt, s0, data);
    ghost var o2 := FinalBytes(t, k, ECB, 1, 0, UpdateTo(t, k, ECB, Encrypt, s0, data), []);
    var nOut;
    c, nOut := obj.Update(data, out, pos, room, 0);
    if c != 0 {
      return 1, 0;
    }
    var nLast;
    c, nLast := obj.Finish([], out, pos + nOut, room - nOut, 0);
    if c != 0 {
      return 2, 0;
    }
    SpliceTwice(before, pos, o1, o2);
    return 0, nOut + nLast;
  }

  /** What decrypting in two calls gives: the last sixteen bytes go to the final call. */
  function OpenedEcb(t: Tables, k: Key, e: seq<byte>): (r: Unpadded)
    requires |e| >= 16
  {
    if Whole(e) then EcbDecrypted(t, k, 1, e) else Error(1)
  }

  lemma DecryptTail(t: Tables, k: Key, iv: Block, e: seq<byte>)
    requires |e| >= 16 && Whole(e)
    ensures var s0, d, last := Stream(iv, []), e[..|e| - 16], e[|e| - 16..];
            var s1 := UpdateTo(t, k, ECB, Decrypt, s0, d);
            && s1.pending == []
            && EcbDecrypted(t, k, 1, e) ==
               (match FinalDecrypt(t, k, ECB, 1, s1, last)
                case Data(q) => Data(UpdateOut(t, k, ECB, Decrypt, s0, d) + q)
                case Error(c) => Error(c))
  {
    hide Dec, Unpad, FeedOut, FeedTo, FinalDecrypt, UpdateOut, UpdateTo;
    var s0, d, last := Stream(iv, []), e[..|e| - 16], e[|e| - 16..];
    assert Concat([d]) == d + Concat([]) == d && d + last == e;
    FeedIsUpdate(t, k, ECB, Decrypt, s0, [d]);
    StreamDecrypts(t, k, ECB, 1, iv, [d], last);
    EcbIgnoresIv(t, k, iv, ZERO_BLOCK, e);
  }

  /** The three cipher calls as both receivers make them; the code tells which failed. */
  method OpenEcb(t: Tables, master: seq<byte>, e: seq<byte>, out: array<byte>, room: nat)
    returns (code: int, written: nat)
    requires ValidTables(t) && |master| == 16 && room <= out.Length && |e| >= 16
    modifies out
    ensures Cut(|e| - 16) > room ==> code == 1
    ensures Cut(|e| - 16) <= room ==>
              match OpenedEcb(t, KeyOf(t, master), e)
              case Error(_) => code == 2
              case Data(p) =>
                if room < |p| then code == 2
                else code == 0 && written == |p| && out[..] == Splice(old(out[..]), 0, p)
  {
    hide FinalDecrypt, UpdateOut, UpdateTo, RoundKeys, Splice, BlockOf, Reverse, EcbDecrypted, StuckAt, Cut, Whole;
    var obj := new Sm4Obj(t, BLANK_KEY);
    var c := obj.Init(master, 1, 0, 1, [], false);
    assert obj.left[..0] == [] && obj.key == KeyOf(t, master);
    ghost var k, before := obj.key, out[..];
    ghost var s0 := obj.State();
    OpenFacts(t, k, s0.iv, e);
    var nOut;
    c, nOut := obj.Update(e[..|e| - 16], out, 0, room, 1);
    if c != 0 {
      return 1, 0;
    }
    var nLast;
    ghost var s1 := obj.State();
    ghost var o1 := UpdateOut(t, k, ECB, Decrypt, s0, e[..|e| - 16]);
    c, nLast := obj.FinishDecrypt(e[nOut..], out, nOut, room - nOut);
    if c != 0 {
      return 2, 0;
    }
    SpliceTwice(before, 0, o1, FinalDecrypt(t, k, ECB, 1, s1, e[nOut..]).data);
    return 0, nOut + nLast;
  }

  /** What the two cipher calls make of a message, and their sizes. */
  lemma OpenFacts(t: Tables, k: Key, iv: Block, e: seq<byte>)
    requires |e| >= 16
    ensures var s0, n := Stream(iv, []), Cut(|e| - 16);
            var s1, o1 := UpdateTo(t, k, ECB, Decrypt, s0, e[..|e| - 16]),
                UpdateOut(t, k, ECB, Decrypt, s0, e[..|e| - 16]);
            && |o1| == n <= |e| && |s1.pending| < 16 && |s1.pending| + |e[n..]| >= 16
            && (|s1.pending| + |e[n..]| == 16 <==> Whole(e))
            && (Whole(e) ==> EcbDecrypted(t, k, 1, e) ==
                             (match FinalDecrypt(t, k, ECB, 1, s1, e[n..])
                              case Data(q) => Data(o1 + q)
                              case Error(c) => Error(c)))
  {
    hide FinalDecrypt, UpdateOut, UpdateTo, EcbDecrypted, Cut;
    var n := Cut(|e| - 16);
    TailSize(|e|, (|e| - 16) % 16, n);
    if Whole(e) {
      DecryptTail(t, k, iv, e);
      assert e[n..] == e[|e| - 16..];
    }
  }

  /** Only whole blocks leave exactly one block for the final call. */
  lemma TailSize(n: nat, left: nat, done: nat)
    requires n >= 16 && done == Cut(n - 16) && left == (n - 16) % 16
    ensures left + (n - done) >= 16
    ensures left + (n - done) == 16 <==> n % 16 == 0
    ensures n % 16 == 0 ==> done == n - 16
  {
  }

  // ---------------------------------------------------------------- strings in memory

  /** The bytes before the first NUL. */
  function Payload(mem: seq<byte>): (d: seq<byte>)
    ensures |d| <= |mem|
  {
    UpTo(mem, 0)
  }

  /** What `GetData` leaves in the caller's buffer is, as a string, what the sender passed. */
  lemma TextBack(mem: seq<byte>, buffer: seq<byte>)
    requires |Payload(mem)| < |buffer|
    ensures Payload(Splice(buffer, 0, Payload(mem) + [0])) == Payload(mem)
  {
    var d := Payload(mem);
    var after := Splice(buffer, 0, d + [0]);
    assert after == d + [0] + buffer[|d| + 1..];
    UpToIs(after, 0, |d|);
  }

  // ---------------------------------------------------------------- the agent

  /** The header up to the MAC. */
  function HeaderStart(h: Header, n: nat): (b: seq<byte>)
    requires ValidHeader(h) && n <= MAX_SIZE
    ensures |b| == 28
  {
    [h.ver, h.kind, h.flag, 0] + LengthField(n) + h.aid + h.sid
  }

  method WriteHeader(h: Header, n: nat, out: array<byte>)
    requires ValidHeader(h) && n <= MAX_SIZE && out.Length >= 28
    modifies out
    ensures out[..] == Splice(old(out[..]), 0, HeaderStart(h, n))
  {
    hide LengthField;
    out[0], out[1], out[2], out[3] := h.ver, h.kind, h.flag, 0;
    ghost var m0 := out[..];
    CopyOut(h.sid, out, 24);
    ghost var m1 := out[..];
    CopyOut(h.aid, out, 8);
    ghost var m2 := out[..];
    CopyOut(LengthField(n), out, 4);
    HeaderJoins(h, n, old(out[..]), m0, m1, m2, out[..]);
  }

  lemma HeaderJoins(h: Header, n: nat, s: seq<byte>, m0: seq<byte>, m1: seq<byte>, m2: seq<byte>, m3: seq<byte>)
    requires ValidHeader(h) && n <= MAX_SIZE && |s| >= 28
    requires m0 == s[0 := h.ver][1 := h.kind][2 := h.flag][3 := 0]
    requires m1 == Splice(m0, 24, h.sid) && m2 == Splice(m1, 8, h.aid) && m3 == Splice(m2, 4, LengthField(n))
    ensures m3 == Splice(s, 0, HeaderStart(h, n))
  {
    hide LengthField;
    assert m0[..4] == [h.ver, h.kind, h.flag, 0] && m0[28..] == s[28..];
    SpliceElsewhere(m0, 24, h.sid, 0, 4);
    SpliceElsewhere(m1, 8, h.aid, 0, 4);
    SpliceElsewhere(m2, 4, LengthField(n), 0, 4);
    assert m1[24..28] == h.sid;
    SpliceElsewhere(m1, 8, h.aid, 24, 28);
    SpliceElsewhere(m2, 4, LengthField(n), 24, 28);
    assert m2[8..24] == h.aid;
    SpliceElsewhere(m2, 4, LengthField(n), 8, 24);
    assert m3[4..8] == LengthField(n);
    assert m1[28..] == m0[28..];
    SpliceElsewhere(m1, 8, h.aid, 28, |s|);
    SpliceElsewhere(m2, 4, LengthField(n), 28, |s|);
    assert m3 == m3[..4] + m3[4..8] + m3[8..24] + m3[24..28] + m3[28..];
  }

  /** MAC, body and header, written in this order, make the packet. */
  lemma PacketJoins(s: seq<byte>, zeros: seq<byte>, mac: seq<byte>, body: seq<byte>, start: seq<byte>)
    requires |zeros| == |mac| == 4 && |start| == 28 && |s| >= HEADER_SIZE + |body|
    ensures Splice(Splice(Splice(Splice(s, 28, zeros), 28, mac), HEADER_SIZE, body), 0, start)
         == Splice(s, 0, start + mac + body)
  {
    var m := Splice(Splice(Splice(s, 28, zeros), 28, mac), HEADER_SIZE, body);
    assert m[28..32] == mac;
    assert m[32..32 + |body|] == body;
    assert m[32 + |body|..] == s[32 + |body|..];
    assert m[28..] == mac + body + s[32 + |body|..];
  }

  lemma StaleJoins(s: seq<byte>, pos: nat, data: seq<byte>, n: nat)
    requires pos + |data| + n <= |s|
    ensures Splice(s, pos, data) == Splice(s, pos, data + s[pos + |data|..pos + |data| + n])
  {
  }

  /** `astPackage`: the built-in key, the agent's key, and whether the agent still has to register. */
  class Agent {
    const s: Suite
    var ki: seq<byte>
    var ka: seq<byte>
    var init: bool

    ghost predicate Valid()
      reads this
    {
      ValidTables(s.t) && |ki| == 32 && |ka| == 32
    }

    constructor (s: Suite, seed: seq<byte>)
      requires ValidTables(s.t)
      ensures Valid() && this.s == s && init && ki == Hash(s, seed)
    {
      hide Hash;
      this.s := s;
      var h := Sm3.Sm3(s.cf, s.start, seed);
      ki, ka, init := h, seq(32, _ => 0), true;
      new;
      HashIs(s, seed);
    }

    function Root(macindex: int): (k: seq<byte>)
      reads this
    {
      if macindex == 1 then ka else ki
    }

    method DeriveKey(root: seq<byte>, id: seq<byte>) returns (k: seq<byte>)
      ensures k == Derived(s, root, id)
    {
      hide Digest;
      k := HashChunks(s.cf, s.start, [root, id]);
      TwoChunks(root, id);
    }

    method ComputeMac(derived: seq<byte>, d: seq<byte>) returns (m: seq<byte>)
      requires |derived| == 32
      ensures m == MacOf(s, derived, d)
    {
      hide Digest;
      m := HashChunks(s.cf, s.start, [d, derived[16..]]);
      TwoChunks(d, derived[16..]);
    }

    /** The middle of `PutData`: the MAC field and the body. */
    method PutBody(h: Header, data: seq<byte>, macindex: int, out: array<byte>, outlen: nat)
      requires Valid() && ValidHeader(h) && outlen <= out.Length
               && HEADER_SIZE + |data| + PadRoom(h.flag, |data|) <= outlen
      modifies out
      ensures var derived := Derived(s, Root(macindex), h.sid);
              var stale := old(out[HEADER_SIZE + |data|..HEADER_SIZE + |data| + PadRoom(h.flag, |data|)]);
              out[..] == Splice(Splice(Splice(old(out[..]), 28, [0, 0, 0, 0]), 28, MacField(s, derived, h.flag, data)),
                                HEADER_SIZE, Body(s, derived, h.flag, data, stale))
    {
      hide Derived, MacOf, EcbEncrypted, KeyOf, Splice, Padded, Cut, Encrypts, Macs;
      ghost var before, n, p := out[..], HEADER_SIZE + |data|, PadRoom(h.flag, |data|);
      ghost var stale := out[n..n + p];
      CopyOut([0, 0, 0, 0], out, 28);
      ghost var zeroed := out[..];
      SpliceElsewhere(before, 28, [0, 0, 0, 0], n, n + p);
      SpliceElsewhere(zeroed, 28, MacField(s, Derived(s, Root(macindex), h.sid), h.flag, data), n, n + p);
      if Macs(h.flag) {
        var derived := DeriveKey(Root(macindex), h.sid);
        var mac := ComputeMac(derived, data);
        CopyOut(mac[..4], out, 28);
        if Encrypts(h.flag) {
          SealedSize(data);
          var code, written := SealEcb(s.t, derived[..16], data, out, HEADER_SIZE, outlen - HEADER_SIZE);
          assert code == 0 && written == |data| + PadRoom(h.flag, |data|);
          return;
        }
      } else {
        SameAgain(before, [0, 0, 0, 0]);
      }
      StaleJoins(out[..], HEADER_SIZE, data, p);
      CopyOut(data, out, HEADER_SIZE);
    }

    /**
      `PutData`: -1 for a registered key asked of an unregistered agent, 1 when the packet does not
      fit, 2 when encryption is asked with the built-in key. The failures 3, 4 and 5 of the cipher
      calls cannot happen once the room has been checked.
     */
    method PutData(text: seq<byte>, h: Header, macindex: int, out: array<byte>, outlen: nat)
        returns (code: int, outlen': nat)
      requires Valid() && ValidHeader(h) && outlen <= out.Length
      requires HEADER_SIZE + |Payload(text)| + 16 <= MAX_SIZE
      modifies out
      ensures code == PutCode(init, macindex, h.flag, |Payload(text)|, outlen)
      ensures code != 0 ==> outlen' == outlen && out[..] == old(out[..])
      ensures code == 0 <==>
                && (init ==> macindex == 0) && (macindex == 0 ==> h.flag & 1 == 0)
                && var n := |Payload(text)|; HEADER_SIZE + n + (if h.flag & 1 == 0 then 0 else 16 - n % 16) <= outlen
      ensures code == 0 ==>
                var data := Payload(text);
                var n, p := HEADER_SIZE + |data|, PadRoom(h.flag, |data|);
                var stale := old(out[n..n + p]);
                && outlen' == n + p <= outlen
                && out[..] == Splice(old(out[..]), 0, PacketBytes(s, Root(macindex), h, data, stale))
      ensures code == 0 ==>
                var data := Payload(text);
                var stale := old(out[HEADER_SIZE + |data|..HEADER_SIZE + |data| + PadRoom(h.flag, |data|)]);
                OnTheWire(out[..outlen'], s, if macindex == 1 then ka else ki, h, data, stale)
    {
      hide Payload, Splice, Derived, MacField, Body, HeaderStart, Encrypts, PacketBytes, HeaderBytes, OnTheWire;
      if init && macindex != 0 {
        return -1, outlen;
      }
      var data := Payload(text);
      var nPadLen := PadRoom(h.flag, |data|);
      PadRoomIs(h.flag, |data|);
      var nMsgLen := |data| + nPadLen;
      if nMsgLen + HEADER_SIZE > outlen {
        return 1, outlen;
      }
      if macindex == 0 && nPadLen > 0 {
        return 2, outlen;
      }
      ghost var n := HEADER_SIZE + |data|;
      ghost var stale := out[n..n + nPadLen];
      PutBody(h, data, macindex, out, outlen);
      outlen' := nMsgLen + HEADER_SIZE;
      WriteHeader(h, outlen', out);
      code := 0;
      ghost var derived := Derived(s, Root(macindex), h.sid);
      PacketJoins(old(out[..]), [0, 0, 0, 0], MacField(s, derived, h.flag, data),
                  Body(s, derived, h.flag, data, stale), HeaderStart(h, outlen'));
      PacketParts(s, Root(macindex), h, data, stale);
      PacketFields(s, Root(macindex), h, data, stale);
      SplicedAtStart(old(out[..]), PacketBytes(s, Root(macindex), h, data, stale));
    }

    /** The decryption part of `GetData`. */
    method Decrypt(derived: seq<byte>, body: seq<byte>, data: array<byte>, datalen: nat) returns (code: int, n: nat)
      requires Valid() && |derived| == 32 && datalen <= data.Length
      modifies data
      ensures match OpenBody(s, derived, 3, body, datalen)
              case Error(c) => code == c != 0
              case Data(p) => code == 0 && n == |p| < datalen && data[..] == Splice(old(data[..]), 0, p)
    {
      BothFlags();
      hide KeyOf, Splice, EcbDecrypted, Encrypts, Macs;
      if |body| < 16 || |body| % 16 != 0 {
        return 2, 0;
      }
      code, n := OpenEcb(s.t, derived[..16], body, data, datalen);
      if code == 1 {
        return 3, 0;
      }
      if code != 0 {
        return 4, 0;
      }
      if datalen <= n {
        return 5, 0;
      }
    }

    /** The steps of `GetData`. */
    method Receive(msg: array<byte>, msglen: nat, macindex: int, data: array<byte>, datalen: nat)
      returns (code: int, h: Header, datalen': nat)
      requires Valid() && msg != data && datalen <= data.Length
      requires msglen < msg.Length && HEADER_SIZE <= msg.Length
      requires FieldLength(msg[..][msglen := 0][4..8]) == msglen ==> HEADER_SIZE <= msglen
      modifies msg, data
      ensures msg[..] == old(msg[..]) || msg[..] == old(msg[..])[msglen := 0]
      ensures match Open(s, Root(macindex), init && macindex != 0, old(msg[..])[msglen := 0], msglen, datalen)
              case Refused(c) => code == c != 0
              case Received(h', d) =>
                && code == 0 && h == h' && datalen' == |d| < datalen
                && data[..] == Splice(old(data[..]), 0, d + [0])
    {
      hide Splice, FieldLength, MacOf, OpenBody, ParsedHeader, Derived, Encrypts, Macs;
      h := Header(0, 0, 0, [], []);
      if init && macindex != 0 {
        return -1, h, datalen;
      }
      ghost var before := data[..];
      msg[msglen] := 0;
      var m := msg[..];
      assert m == old(msg[..])[msglen := 0];
      if FieldLength(m[4..8]) != msglen {
        return 1, h, datalen;
      }
      var head := ParsedHeader(m);
      var body := m[HEADER_SIZE..msglen];
      var derived := DeriveKey(Root(macindex), head.sid);
      PlainBody(s, derived, head.flag, body, datalen);
      var d := body;
      if Macs(head.flag) {
        if Encrypts(head.flag) {
          BothFlagsSet(s, derived, head.flag, body, datalen);
          var n;
          code, n := Decrypt(derived, body, data, datalen);
          if code != 0 {
            return code, h, datalen;
          }
          d := data[..n];
          SpliceRead(before, data[..], OpenBody(s, derived, head.flag, body, datalen).data);
        }
        var mac := ComputeMac(derived, d);
        if mac[..4] != m[28..32] {
          return 6, h, datalen;
        }
      }
      if !(Encrypts(head.flag) && Macs(head.flag)) {
        if datalen <= |d| {
          return 7, h, datalen;
        }
        CopyOut(d, data, 0);
      }
      data[|d|] := 0;
      Terminated(before, d, data[..]);
      return 0, head, |d|;
    }

    /**
      `GetData`. The message memory extends past the message, because a terminator is stored
      there first; a message whose length field agrees with the given size has a whole header.
     */
    method GetData(msg: array<byte>, msglen: nat, macindex: int, data: array<byte>, datalen: nat)
      returns (code: int, h: Header, datalen': nat)
      requires Valid() && msg != data && datalen <= data.Length
      requires msglen < msg.Length && HEADER_SIZE <= msg.Length
      requires FieldLength(msg[..][msglen := 0][4..8]) == msglen ==> HEADER_SIZE <= msglen
      modifies msg, data
      ensures msg[..] == old(msg[..]) || msg[..] == old(msg[..])[msglen := 0]
      ensures match Open(s, Root(macindex), init && macindex != 0, old(msg[..])[msglen := 0], msglen, datalen)
              case Refused(c) => code == c != 0
              case Received(h', d) =>
                && code == 0 && h == h' && datalen' == |d| < datalen
                && data[..] == Splice(old(data[..]), 0, d + [0])
      ensures code == 0 ==>
                && datalen' < datalen
                && Carries(old(msg[..msglen]), s, if macindex == 1 then ka else ki, h, data[..datalen'])
      ensures code != 0 && (init ==> macindex == 0) ==>
                CarriesNoneBelow(old(msg[..msglen]), s, if macindex == 1 then ka else ki, datalen)
    {
      hide Splice, FieldLength, Open, Carries, CarriesNoneBelow;
      ghost var before, root := data[..], Root(macindex);
      AcceptedInMemory(s, root, msg[..], msglen, datalen);
      RefusedAtOnce(s, root, msg[..][msglen := 0], msglen, datalen);
      code, h, datalen' := Receive(msg, msglen, macindex, data, datalen);
      if code == 0 {
        ReadBehind(before, data[..], Open(s, root, false, old(msg[..])[msglen := 0], msglen, datalen).data);
      }
    }

    /** `EncryptByID`: 1 or 2 when the output does not fit, else the padded encryption and the MAC. */
    method EncryptByID(d: seq<byte>, id: seq<byte>, keyindex: int, out: array<byte>, outlen: nat)
      returns (code: int, outlen': nat, mac: seq<byte>)
      requires Valid() && outlen <= out.Length
      modifies out
      ensures init && keyindex == 1 ==> code == -1 && out[..] == old(out[..])
      ensures !(init && keyindex == 1) ==> (code == 0 <==> |Padded(1, d)| <= outlen) && 0 <= code <= 2
      ensures code == 0 ==>
                var k := Digest(s.cf, s.start, (if keyindex == 1 then ka else ki) + id);
                var e := EcbEncrypted(s.t, KeyOf(s.t, k[..16]), 1, d);
                && e == IdSealed(s, Root(keyindex), id, d)
                && mac == Digest(s.cf, s.start, d + k[16..])
                && outlen' == |e| <= outlen
                && out[..] == Splice(old(out[..]), 0, e)
    {
      hide Derived, MacOf, EcbEncrypted, KeyOf, Splice, Padded, Cut, Digest, CipherKey;
      KeysWritten(s, Root(keyindex), id, d);
      SealedSize(d);
      mac := [];
      if keyindex == 1 && init {
        return -1, outlen, mac;
      }
      var derived := DeriveKey(Root(keyindex), id);
      code, outlen' := SealEcb(s.t, derived[..16], d, out, 0, outlen);
      if code != 0 {
        return code, outlen, mac;
      }
      mac := ComputeMac(derived, d);
    }

    /** `DecryptByID`: 1 below one block, 2 for whatever the cipher calls refuse. */
    method DecryptByID(e: seq<byte>, id: seq<byte>, keyindex: int, out: array<byte>, outlen: nat)
      returns (code: int, outlen': nat)
      requires Valid() && outlen <= out.Length
      modifies out
      ensures |e| < 16 ==> code == 1
      ensures |e| >= 16 && init && keyindex == 1 ==> code == -1
      ensures |e| >= 16 && !(init && keyindex == 1) ==>
                match IdOpened(s, Root(keyindex), id, e, outlen)
                case Error(_) => code == 2
                case Data(p) => code == 0 && outlen' == |p| <= outlen && out[..] == Splice(old(out[..]), 0, p)
      ensures code == 0 ==>
                var k := Digest(s.cf, s.start, (if keyindex == 1 then ka else ki) + id);
                && |e| >= 16 && Whole(e) && EcbDecrypted(s.t, KeyOf(s.t, k[..16]), 1, e).Data?
                && outlen' == |EcbDecrypted(s.t, KeyOf(s.t, k[..16]), 1, e).data| <= outlen
                && out[..] == Splice(old(out[..]), 0, EcbDecrypted(s.t, KeyOf(s.t, k[..16]), 1, e).data)
    {
      hide Derived, EcbDecrypted, KeyOf, Splice, Cut, Digest, CipherKey;
      KeysWritten(s, Root(keyindex), id, []);
      if |e| < 16 {
        return 1, outlen;
      }
      if keyindex == 1 && init {
        return -1, outlen;
      }
      var derived := DeriveKey(Root(keyindex), id);
      code, outlen' := OpenEcb(s.t, derived[..16], e, out, outlen);
      if code != 0 {
        return 2, outlen;
      }
    }
  }

  /** What `EncryptByID` writes. */
  function IdSealed(s: Suite, root: seq<byte>, id: seq<byte>, d: seq<byte>): (e: seq<byte>)
    requires ValidTables(s.t)
  {
    EcbEncrypted(s.t, CipherKey(s, Derived(s, root, id)), 1, d)
  }

  /** What `DecryptByID` makes of it, given room. */
  function IdOpened(s: Suite, root: seq<byte>, id: seq<byte>, e: seq<byte>, room: nat): (r: Unpadded)
    requires ValidTables(s.t) && |e| >= 16
  {
    if Cut(|e| - 16) > room then Error(2)
    else
      match OpenedEcb(s.t, CipherKey(s, Derived(s, root, id)), e)
      case Error(_) => Error(2)
      case Data(p) => if room < |p| then Error(2) else Data(p)
  }

  /** Decrypting by identity undoes encrypting, exactly when the caller has room for the data. */
  lemma IdRoundTrip(s: Suite, root: seq<byte>, id: seq<byte>, d: seq<byte>, room: nat)
    requires ValidTables(s.t)
    ensures |IdSealed(s, root, id, d)| >= 16
    ensures IdOpened(s, root, id, IdSealed(s, root, id, d), room) == Data(d) <==> |d| <= room
  {
    hide EcbEncrypted, EcbDecrypted, Derived, CipherKey, Padded;
    EcbRoundTrip(s.t, CipherKey(s, Derived(s, root, id)), 1, d);
    SealedSize(d);
  }

  lemma BothFlags()
    ensures Encrypts(3) && Macs(3)
  {
  }

  lemma BothFlagsSet(s: Suite, derived: seq<byte>, flag: byte, body: seq<byte>, capacity: nat)
    requires ValidTables(s.t) && |derived| == 32 && Encrypts(flag) && Macs(flag)
    ensures OpenBody(s, derived, flag, body, capacity) == OpenBody(s, derived, 3, body, capacity)
  {
    BothFlags();
    hide Encrypts, Macs, EcbDecrypted, CipherKey;
  }

  lemma PlainBody(s: Suite, derived: seq<byte>, flag: byte, body: seq<byte>, capacity: nat)
    requires ValidTables(s.t) && |derived| == 32
    ensures !(Encrypts(flag) && Macs(flag)) ==> OpenBody(s, derived, flag, body, capacity) == Data(body)
  {
    hide Encrypts, Macs, EcbDecrypted, CipherKey;
  }

  lemma SpliceRead(before: seq<byte>, after: seq<byte>, d: seq<byte>)
    requires |d| <= |before| && after == Splice(before, 0, d)
    ensures after[..|d|] == d
  {
  }

  lemma Terminated(before: seq<byte>, d: seq<byte>, after: seq<byte>)
    requires |d| < |before| && after == Splice(before, 0, d)[|d| := 0]
    ensures after == Splice(before, 0, d + [0])
  {
  }

  lemma PacketParts(s: Suite, root: seq<byte>, h: Header, data: seq<byte>, stale: seq<byte>)
    requires ValidTables(s.t) && ValidHeader(h) && |stale| == PadRoom(h.flag, |data|)
    requires HEADER_SIZE + |data| + 16 <= MAX_SIZE
    ensures var derived := Derived(s, root, h.sid);
            var body := Body(s, derived, h.flag, data, stale);
            PacketBytes(s, root, h, data, stale) ==
            HeaderStart(h, HEADER_SIZE + |body|) + MacField(s, derived, h.flag, data) + body
  {
    hide Derived, Body, MacField, LengthField;
  }

  lemma HashIs(s: Suite, d: seq<byte>)
    ensures Hash(s, d) == Digest(s.cf, s.start, d)
  {
    hide Digest;
  }

  lemma TwoChunks(a: seq<byte>, b: seq<byte>)
    ensures Concat([a, b]) == a + b
  {
    assert [a, b][1..] == [b] && [b][1..] == [];
    assert Concat([b]) == b + Concat([]) == b;
  }

  lemma SpliceElsewhere(s: seq<byte>, pos: nat, d: seq<byte>, a: nat, b: nat)
    requires pos + |d| <= |s| && a <= b <= |s| && (b <= pos || pos + |d| <= a)
    ensures Splice(s, pos, d)[a..b] == s[a..b]
  {
  }

  lemma SameAgain(s: seq<byte>, d: seq<byte>)
    requires |s| >= 28 + |d|
    ensures Splice(Splice(s, 28, d), 28, d) == Splice(s, 28, d)
  {
  }

  lemma SealedSize(d: seq<byte>)
    ensures |Padded(1, d)| == |d| + PadCount(|d|) && Cut(|d|) <= |Padded(1, d)|
  {
  }

  // ---------------------------------------------------------------- from one side to the other

  /** The receiver looks at the message only, not at the memory behind it. */
  lemma OpenPrefix(s: Suite, root: seq<byte>, m: seq<byte>, p: seq<byte>, capacity: nat)
    requires ValidTables(s.t) && HEADER_SIZE <= |p| <= |m| && m[..|p|] == p
    ensures Open(s, root, false, m, |p|, capacity) == Open(s, root, false, p, |p|, capacity)
  {
    hide OpenBody, MacOf, FieldLength, Encrypts, Macs, Derived;
    SliceOfPrefix(m, p, 4, 8);
    SliceOfPrefix(m, p, 8, 24);
    SliceOfPrefix(m, p, 24, 28);
    SliceOfPrefix(m, p, 28, 32);
    SliceOfPrefix(m, p, HEADER_SIZE, |p|);
    assert forall i :: 0 <= i < 3 ==> m[i] == m[..|p|][i];
    assert ParsedHeader(m) == ParsedHeader(p);
  }

  lemma SliceOfPrefix(m: seq<byte>, p: seq<byte>, a: nat, b: nat)
    requires |p| <= |m| && m[..|p|] == p && a <= b <= |p|
    ensures m[a..b] == p[a..b]
  {
    SliceOfSlice(m, 0, |p|, a, b);
    assert m[0..|p|] == p;
  }

  /** What is accepted of a message in a larger memory, with the terminator stored behind it. */
  lemma AcceptedInMemory(s: Suite, root: seq<byte>, mem: seq<byte>, msglen: nat, capacity: nat)
    requires ValidTables(s.t) && msglen < |mem| && HEADER_SIZE <= |mem|
    requires FieldLength(mem[msglen := 0][4..8]) == msglen ==> HEADER_SIZE <= msglen
    ensures match Open(s, root, false, mem[msglen := 0], msglen, capacity)
            case Received(h, d) => Carries(mem[..msglen], s, root, h, d)
            case Refused(_) => CarriesNoneBelow(mem[..msglen], s, root, capacity)
  {
    var m, p := mem[msglen := 0], mem[..msglen];
    assert m[..msglen] == p;
    if FieldLength(m[4..8]) == msglen {
      hide Open, Carries, FieldLength;
      OpenPrefix(s, root, m, p, capacity);
      forall h, d
        ensures Open(s, root, false, p, msglen, capacity) == Received(h, d) <==>
                Carries(p, s, root, h, d) && |d| < capacity
      {
        AcceptsExactly(s, root, p, capacity, h, d);
      }
    } else if msglen >= HEADER_SIZE {
      hide FieldLength;
      SliceOfPrefix(m, p, 4, 8);
    }
  }

  /** What the receiver makes of a packet that lies, with a terminator behind it, in a larger memory. */
  lemma PacketArrives(s: Suite, root: seq<byte>, h: Header, data: seq<byte>, stale: seq<byte>, before: seq<byte>,
      capacity: nat)
    requires ValidTables(s.t) && ValidHeader(h) && |stale| == PadRoom(h.flag, |data|)
    requires HEADER_SIZE + |data| + 16 <= MAX_SIZE && capacity > |data|
    requires HEADER_SIZE + |data| + |stale| < |before|
    ensures var p := PacketBytes(s, root, h, data, stale);
            var m := Splice(before, 0, p)[|p| := 0];
            && FieldLength(m[4..8]) == |p|
            && Open(s, root, false, m, |p|, capacity) ==
               (if Encrypts(h.flag) ==> Macs(h.flag) then Received(h, data)
                else if capacity <= |data + stale| then Refused(7)
                else Received(h, data + stale))
  {
    hide PacketBytes, Open, Encrypts, Macs, FieldLength;
    var p := PacketBytes(s, root, h, data, stale);
    var m := Splice(before, 0, p)[|p| := 0];
    assert m[..|p|] == p;
    SliceOfPrefix(m, p, 4, 8);
    PacketRoundTrip(s, root, h, data, stale, capacity);
    OpenPrefix(s, root, m, p, capacity);
  }

  /**
    One agent sends and another with the same keys receives: the header and the text arrive, as a
    string in the receiver's buffer, if and only if the flag does not ask for encryption without
    a MAC. Otherwise the receiver gets the padding's room as well, or has no room for it.
   */
  method SendAndReceive(from: Agent, to: Agent, text: seq<byte>, h: Header, macindex: int, out: array<byte>,
      outlen: nat, data: array<byte>)
    returns (sent: int, code: int, got: Header, n: nat)
    requires from.Valid() && to.Valid() && from.s == to.s && from.ki == to.ki && from.ka == to.ka
             && from.init == to.init
    requires ValidHeader(h) && out != data && outlen < out.Length && |Payload(text)| < data.Length
    requires HEADER_SIZE + |Payload(text)| + 16 <= MAX_SIZE
    modifies out, data
    ensures sent == PutCode(from.init, macindex, h.flag, |Payload(text)|, outlen)
    ensures sent == 0 && (Encrypts(h.flag) ==> Macs(h.flag)) ==>
              && code == 0 && got == h && n == |Payload(text)| < data.Length
              && data[..n] == Payload(text) && Payload(data[..]) == Payload(text)
    ensures sent == 0 && Encrypts(h.flag) && !Macs(h.flag) ==>
              var d, all := Payload(text), |Payload(text)| + PadRoom(h.flag, |Payload(text)|);
              && |d| < all
              && if data.Length <= all then code == 7
                 else && code == 0 && got == h && n == all < data.Length && HEADER_SIZE + n <= out.Length
                      && data[..n] == d + old(out[HEADER_SIZE + |d|..])[..n - |d|]
  {
    hide Payload, Splice, PacketBytes, Open, Encrypts, Macs, FieldLength, OnTheWire, Carries,
         CarriesNoneBelow;
    var d := Payload(text);
    ghost var before, buffer := out[..], data[..];
    code, got, n := 0, Header(0, 0, 0, [], []), 0;
    var length;
    sent, length := from.PutData(text, h, macindex, out, outlen);
    if sent != 0 {
      return;
    }
    ghost var stale := before[HEADER_SIZE + |d|..length];
    ghost var root := from.Root(macindex);
    PacketArrives(from.s, root, h, d, stale, before, data.Length);
    StaleNeverEmpty(h.flag, d, stale);
    code, got, n := to.GetData(out, length, macindex, data, data.Length);
    if Encrypts(h.flag) ==> Macs(h.flag) {
      TextBack(text, buffer);
      ReadBehind(buffer, data[..], d);
    } else if code == 0 {
      ReadBehind(buffer, data[..], d + stale);
      SliceOfSlice(before, HEADER_SIZE + |d|, |before|, 0, n - |d|);
      assert before[HEADER_SIZE + |d|..|before|] == before[HEADER_SIZE + |d|..];
    }
  }

  lemma ReadBehind(buffer: seq<byte>, after: seq<byte>, d: seq<byte>)
    requires |d| < |buffer| && after == Splice(buffer, 0, d + [0])
    ensures |d| < |after| && after[..|d|] == d
  {
  }

  /**
    Which key a packet is under: for index 1 the agent's own key, for every other index the
    built-in one. Agents that share that key write the same packet, whatever the other key is.
   */
  method TwoSenders(a: Agent, b: Agent, text: seq<byte>, h: Header, macindex: int, out: array<byte>, out': array<byte>,
      outlen: nat)
    returns (code: int, code': int, n: nat, n': nat)
    requires a.Valid() && b.Valid() && a.s == b.s && a.init == b.init
    requires if macindex == 1 then a.ka == b.ka else a.ki == b.ki
    requires ValidHeader(h) && out != out' && out[..] == out'[..] && outlen <= out.Length
    requires HEADER_SIZE + |Payload(text)| + 16 <= MAX_SIZE
    modifies out, out'
    ensures code == code' && n == n' && out[..] == out'[..]
  {
    hide Payload, Splice, PacketBytes, OnTheWire, PutCode, PadRoom;
    code, n := a.PutData(text, h, macindex, out, outlen);
    code', n' := b.PutData(text, h, macindex, out', outlen);
    ghost var d := Payload(text);
    ghost var p := PadRoom(h.flag, |d|);
    if code == 0 {
      SliceOfSlice(old(out[..]), 0, out.Length, HEADER_SIZE + |d|, HEADER_SIZE + |d| + p);
      SliceOfSlice(old(out'[..]), 0, out.Length, HEADER_SIZE + |d|, HEADER_SIZE + |d| + p);
    }
  }
}
