/** The PPPoE relay tag of the bridge: put into a client's discovery packet, and taken out of the
    access concentrator's answer. */
module Pppoe {
  import opened Words

  const RELAY_SID := 0x0110
  const MAGIC_CODE := 0x8186
  const TAGS_AT := 20       // Ethernet header, then version, code, session id and length
  const TAG_BUF := 40

  // ---------------------------------------------------------------- tags

  datatype Tag = Tag(kind: u16, value: seq<u8>)

  function Be16(x: nat): (b: seq<u8>)
    ensures |b| == 2
  {
    [x / 0x100 % 0x100, x % 0x100]
  }

  function FromBe16(d: seq<u8>, at: nat): (x: nat)
    requires at + 2 <= |d|
    ensures x < 0x1_0000
  {
    (d[at] as int) * 0x100 + d[at + 1]
  }

  function Enc(t: Tag): seq<u8> {
    Be16(t.kind) + Be16(|t.value|) + t.value
  }

  /** One encoding after the other. */
  function Flat<T>(f: T -> seq<u8>, ts: seq<T>): seq<u8> {
    if ts == [] then [] else f(ts[0]) + Flat(f, ts[1..])
  }

  function EncAll(ts: seq<Tag>): seq<u8> {
    Flat(Enc, ts)
  }

  /** The first tag of a kind, or the number of tags. */
  function FirstOf(ts: seq<Tag>, kind: u16): (k: nat)
    ensures k <= |ts|
    ensures k < |ts| ==> ts[k].kind == kind
    ensures forall i :: 0 <= i < k ==> ts[i].kind != kind
  {
    if ts == [] || ts[0].kind == kind then 0 else 1 + FirstOf(ts[1..], kind)
  }

  lemma {:induction false} FlatConcat<T>(f: T -> seq<u8>, a: seq<T>, b: seq<T>)
    ensures Flat(f, a + b) == Flat(f, a) + Flat(f, b)
    decreases |a|
  {
    if a == [] {
      assert a + b == b;
    } else {
      assert (a + b)[1..] == a[1..] + b;
      FlatConcat(f, a[1..], b);
    }
  }

  lemma FlatSingle<T>(f: T -> seq<u8>, t: T)
    ensures Flat(f, [t]) == f(t)
  {
    assert [t][1..] == [];
    assert f(t) + [] == f(t);
  }

  lemma Cut<T>(ts: seq<T>, k: nat)
    requires k < |ts|
    ensures ts[..k] + [ts[k]] == ts[..k + 1]
    ensures ts[..k + 1] + ts[k + 1..] == ts
  {
  }

  lemma FlatSplit<T>(f: T -> seq<u8>, ts: seq<T>, k: nat)
    requires k < |ts|
    ensures Flat(f, ts) == Flat(f, ts[..k]) + f(ts[k]) + Flat(f, ts[k + 1..])
    ensures Flat(f, ts[..k + 1]) == Flat(f, ts[..k]) + f(ts[k])
  {
    Cut(ts, k);
    FlatSingle(f, ts[k]);
    FlatConcat(f, ts[..k], [ts[k]]);
    FlatConcat(f, ts[..k + 1], ts[k + 1..]);
  }

  lemma EncSplit(ts: seq<Tag>, k: nat)
    requires k < |ts|
    ensures EncAll(ts) == EncAll(ts[..k]) + Enc(ts[k]) + EncAll(ts[k + 1..])
    ensures EncAll(ts[..k + 1]) == EncAll(ts[..k]) + Enc(ts[k])
    ensures EncAll(ts[..k] + ts[k + 1..]) == EncAll(ts[..k]) + EncAll(ts[k + 1..])
  {
    FlatSplit(Enc, ts, k);
    FlatConcat(Enc, ts[..k], ts[k + 1..]);
  }

  // ---------------------------------------------------------------- frames

  /** A discovery frame: eighteen bytes of header, the length, the tags it announces, and whatever
      pads the frame. */
  ghost predicate Layout(d: seq<u8>, hdr: seq<u8>, ts: seq<Tag>, pad: seq<u8>) {
    && |hdr| == 18 && |EncAll(ts)| < 0x1_0000
    && (forall t :: t in ts ==> |t.value| < 0x1_0000)
    && d == hdr + Be16(|EncAll(ts)|) + EncAll(ts) + pad
  }

  function Source(hdr: seq<u8>): seq<u8>
    requires |hdr| == 18
  {
    hdr[6..12]
  }

  function WithDest(hdr: seq<u8>, mac: seq<u8>): seq<u8>
    requires |hdr| == 18 && |mac| == 6
  {
    mac + hdr[6..]
  }

  function RelayValue(mac: seq<u8>, own: seq<u8>): seq<u8> {
    Be16(MAGIC_CODE) + mac + own
  }

  /** The tag list without its first relay tag, and that tag's value. */
  function Others(ts: seq<Tag>): seq<Tag> {
    var k := FirstOf(ts, RELAY_SID);
    if k < |ts| then ts[..k] + ts[k + 1..] else ts
  }

  function OwnSid(ts: seq<Tag>): seq<u8> {
    var k := FirstOf(ts, RELAY_SID);
    if k < |ts| then ts[k].value else []
  }

  function RelayTag(mac: seq<u8>, own: seq<u8>): Tag {
    Tag(RELAY_SID, RelayValue(mac, own))
  }

  function Inserted(mac: seq<u8>, ts: seq<Tag>): seq<Tag> {
    [RelayTag(mac, OwnSid(ts))] + Others(ts)
  }

  /** The tag list after the relay's part of the first relay tag is taken out: a tag that held
      nothing else disappears. */
  function Stripped(ts: seq<Tag>): seq<Tag>
    requires FirstOf(ts, RELAY_SID) < |ts| && |ts[FirstOf(ts, RELAY_SID)].value| >= 8
  {
    var k := FirstOf(ts, RELAY_SID);
    ts[..k] + (if |ts[k].value| > 8 then [Tag(RELAY_SID, ts[k].value[8..])] else []) + ts[k + 1..]
  }

  /** What a client should get back: its own relay tag in front, if it sent one. */
  function RelayFirst(ts: seq<Tag>): seq<Tag> {
    var k := FirstOf(ts, RELAY_SID);
    if k < |ts| then [ts[k]] + Others(ts) else ts
  }

  /** The concentrator may answer with tags of its own before and behind the relay tag. */
  lemma AnswerStripped(pre: seq<Tag>, mac: seq<u8>, own: seq<u8>, post: seq<Tag>)
    requires |mac| == 6 && FirstOf(pre, RELAY_SID) == |pre|
    ensures var ts := pre + [Tag(RELAY_SID, RelayValue(mac, own))] + post;
      && FirstOf(ts, RELAY_SID) == |pre|
      && ts[|pre|].value[2..8] == mac
      && Stripped(ts) == pre + (if own != [] then [Tag(RELAY_SID, own)] else []) + post
  {
    var ts := pre + [Tag(RELAY_SID, RelayValue(mac, own))] + post;
    var k := FirstOf(ts, RELAY_SID);
    assert ts[|pre|].kind == RELAY_SID;
    assert forall i :: 0 <= i < |pre| ==> ts[i] == pre[i];
    assert ts[..k] == pre && ts[k + 1..] == post;
    assert ts[k].value[8..] == own;
  }

  lemma StrippedInserted(mac: seq<u8>, ts: seq<Tag>)
    requires |mac| == 6
    ensures FirstOf(Inserted(mac, ts), RELAY_SID) == 0 && |Inserted(mac, ts)[0].value| >= 8
    ensures Stripped(Inserted(mac, ts))
            == if OwnSid(ts) == [] then Others(ts) else [Tag(RELAY_SID, OwnSid(ts))] + Others(ts)
  {
    var own, others := OwnSid(ts), Others(ts);
    AnswerStripped([], mac, own, others);
    NoFront([Tag(RELAY_SID, RelayValue(mac, own))], others);
    NoFront(if own != [] then [Tag(RELAY_SID, own)] else [], others);
    assert [] + others == others;
  }

  lemma NoFront(a: seq<Tag>, b: seq<Tag>)
    ensures [] + a + b == a + b
  {
    assert [] + a == a;
  }

  /** The client gets its own relay value and everything else back in order, if and only if it sent
      no relay tag or a non-empty one. */
  lemma RelayRoundTripIff(mac: seq<u8>, ts: seq<Tag>)
    requires |mac| == 6
    ensures FirstOf(Inserted(mac, ts), RELAY_SID) == 0 && |Inserted(mac, ts)[0].value| >= 8
    ensures Stripped(Inserted(mac, ts)) == RelayFirst(ts)
            <==> FirstOf(ts, RELAY_SID) == |ts| || ts[FirstOf(ts, RELAY_SID)].value != []
  {
    StrippedInserted(mac, ts);
    var k := FirstOf(ts, RELAY_SID);
    if k < |ts| {
      assert ts[k] == Tag(RELAY_SID, OwnSid(ts));
      assert |[ts[k]] + Others(ts)| == |Others(ts)| + 1;
    }
  }

  /** An empty relay tag does not come back. */
  lemma EmptyTagIsLost(mac: seq<u8>)
    requires |mac| == 6
    ensures var ts := [Tag(RELAY_SID, [])];
      && FirstOf(Inserted(mac, ts), RELAY_SID) == 0 && |Inserted(mac, ts)[0].value| >= 8
      && Stripped(Inserted(mac, ts)) == []
  {
    var ts := [Tag(RELAY_SID, [])];
    StrippedInserted(mac, ts);
    assert Others(ts) == [];
  }

  // ---------------------------------------------------------------- bytes of a frame

  lemma LengthField(d: seq<u8>, hdr: seq<u8>, ts: seq<Tag>, pad: seq<u8>)
    requires Layout(d, hdr, ts, pad)
    ensures |d| == 20 + |EncAll(ts)| + |pad|
    ensures FromBe16(d, 18) == |EncAll(ts)|
  {
    var n := |EncAll(ts)|;
    assert d[18] == Be16(n)[0] && d[19] == Be16(n)[1];
  }

  lemma NoMoreTags(ts: seq<Tag>, i: nat)
    requires i <= |ts| && |EncAll(ts[..i])| >= |EncAll(ts)|
    ensures i == |ts|
  {
    if i < |ts| {
      EncSplit(ts, i);
    }
  }

  /** Where the i-th tag lies, and what its bytes say. */
  lemma TagBytes(d: seq<u8>, hdr: seq<u8>, ts: seq<Tag>, pad: seq<u8>, i: nat)
    requires Layout(d, hdr, ts, pad) && i <= |ts| && |EncAll(ts[..i])| < |EncAll(ts)|
    ensures i < |ts|
    ensures var at := TAGS_AT + |EncAll(ts[..i])|;
      && at + 4 + |ts[i].value| <= |d| - |pad|
      && FromBe16(d, at) == ts[i].kind && FromBe16(d, at + 2) == |ts[i].value|
      && d[at + 4..at + 4 + |ts[i].value|] == ts[i].value
      && |EncAll(ts[..i + 1])| == |EncAll(ts[..i])| + 4 + |ts[i].value| <= |EncAll(ts)|
  {
    assert ts[..|ts|] == ts;
    assert i < |ts|;
    EncSplit(ts, i);
    var before := hdr + Be16(|EncAll(ts)|) + EncAll(ts[..i]);
    var after := EncAll(ts[i + 1..]) + pad;
    assert d == before + Enc(ts[i]) + after by {
      var (a, b, c, e) := (hdr + Be16(|EncAll(ts)|), EncAll(ts[..i]), Enc(ts[i]), EncAll(ts[i + 1..]));
      assert a + (b + c + e) + pad == (a + b) + c + (e + pad);
    }
    assert ts[i] in ts;
    EncodedTag(before, ts[i], after);
  }

  lemma EncodedTag(before: seq<u8>, t: Tag, after: seq<u8>)
    requires |t.value| < 0x1_0000
    ensures var d := before + Enc(t) + after;
      var at := |before|;
      && FromBe16(d, at) == t.kind && FromBe16(d, at + 2) == |t.value|
      && d[at + 4..at + 4 + |t.value|] == t.value
  {
    var d, at := before + Enc(t) + after, |before|;
    assert d[at] == Be16(t.kind)[0] && d[at + 1] == Be16(t.kind)[1];
    assert d[at + 2] == Be16(|t.value|)[0] && d[at + 3] == Be16(|t.value|)[1];
  }

  /** The length field of a frame overwritten. */
  function SetLength(d: seq<u8>, n: nat): seq<u8>
    requires |d| >= 20
  {
    d[18 := n / 0x100 % 0x100][19 := n % 0x100]
  }

  lemma SetLengthOf(hdr: seq<u8>, len: seq<u8>, body: seq<u8>, n: nat)
    requires |hdr| == 18 && |len| == 2
    ensures SetLength(hdr + len + body, n) == hdr + Be16(n) + body
  {
  }

  lemma Without(a: seq<u8>, b: seq<u8>, c: seq<u8>)
    ensures (a + b + c)[..|a|] + (a + b + c)[|a| + |b|..] == a + c
  {
  }

  /** The three parts of a frame around one tag. */
  lemma AroundTag(d: seq<u8>, hdr: seq<u8>, ts: seq<Tag>, pad: seq<u8>, k: nat)
    requires Layout(d, hdr, ts, pad) && k < |ts|
    ensures d == (hdr + Be16(|EncAll(ts)|) + EncAll(ts[..k])) + Enc(ts[k]) + (EncAll(ts[k + 1..]) + pad)
    ensures |EncAll(ts)| == |EncAll(ts[..k])| + |Enc(ts[k])| + |EncAll(ts[k + 1..])|
  {
    EncSplit(ts, k);
    Regroup(hdr + Be16(|EncAll(ts)|), EncAll(ts[..k]), Enc(ts[k]), EncAll(ts[k + 1..]), pad);
  }

  lemma Regroup(a: seq<u8>, b: seq<u8>, c: seq<u8>, e: seq<u8>, f: seq<u8>)
    ensures a + (b + c + e) + f == (a + b) + c + (e + f)
    ensures (a + b) + (e + f) == a + ((b + e) + f)
    ensures (a + b) + c + (e + f) == a + ((b + c + e) + f)
  {
  }

  /** The frame without `n` bytes of its tags, and with its length field corrected. */
  function CutOut(d: seq<u8>, at: nat, n: nat, len: nat): seq<u8>
    requires TAGS_AT <= at && at + n <= |d| && n <= len
  {
    SetLength(d[..at] + d[at + n..], len - n)
  }

  /** Taking one tag out of a frame, and correcting the length. */
  lemma CutTag(d: seq<u8>, hdr: seq<u8>, ts: seq<Tag>, pad: seq<u8>, k: nat)
    requires Layout(d, hdr, ts, pad) && k < |ts|
    ensures var at, n := TAGS_AT + |EncAll(ts[..k])|, |Enc(ts[k])|;
      && at + n <= |d| && n <= |EncAll(ts)|
      && Layout(CutOut(d, at, n, |EncAll(ts)|), hdr, ts[..k] + ts[k + 1..], pad)
  {
    AroundTag(d, hdr, ts, pad, k);
    var a, b, e := hdr + Be16(|EncAll(ts)|), EncAll(ts[..k]), EncAll(ts[k + 1..]);
    Without(a + b, Enc(ts[k]), e + pad);
    Regroup(a, b, Enc(ts[k]), e, pad);
    EncSplit(ts, k);
    SetLengthOf(hdr, Be16(|EncAll(ts)|), (b + e) + pad, |EncAll(ts)| - |Enc(ts[k])|);
    LayoutOf(hdr, ts[..k] + ts[k + 1..], pad);
  }

  lemma LayoutOf(hdr: seq<u8>, ts: seq<Tag>, pad: seq<u8>)
    requires |hdr| == 18 && |EncAll(ts)| < 0x1_0000
    requires forall t :: t in ts ==> |t.value| < 0x1_0000
    ensures Layout(hdr + Be16(|EncAll(ts)|) + (EncAll(ts) + pad), hdr, ts, pad)
  {
    assert hdr + Be16(|EncAll(ts)|) + (EncAll(ts) + pad) == hdr + Be16(|EncAll(ts)|) + EncAll(ts) + pad;
  }

  /** Bytes put in front of the tags: these are moved up, the room behind the frame is used, and as
      many bytes as before pad the frame. */
  lemma PrependBytes(d: seq<u8>, room: seq<u8>, hdr: seq<u8>, ts: seq<Tag>, pad: seq<u8>, front: seq<u8>)
    requires Layout(d, hdr, ts, pad) && |room| == |front|
    ensures var n, len := |front|, |EncAll(ts)|;
      var rest := (d + room)[20 + n + len..];
      && |d| == 20 + len + |pad| && |rest| == |pad|
      && SetLength(d[..20] + front + d[20..20 + len] + rest, len + n)
         == hdr + Be16(len + n) + (front + EncAll(ts) + rest)
  {
    var n, len := |front|, |EncAll(ts)|;
    LengthField(d, hdr, ts, pad);
    var rest := (d + room)[20 + n + len..];
    assert d[..20] == hdr + Be16(len);
    assert d[20..20 + len] == EncAll(ts);
    assert hdr + Be16(len) + front + EncAll(ts) + rest == hdr + Be16(len) + (front + EncAll(ts) + rest);
    SetLengthOf(hdr, Be16(len), front + EncAll(ts) + rest, len + n);
  }

  /** When these bytes are a tag and the length field holds the sum, the frame has one tag more. */
  lemma PrependTag(hdr: seq<u8>, t: Tag, ts: seq<Tag>, rest: seq<u8>)
    requires |hdr| == 18 && |Enc(t)| + |EncAll(ts)| < 0x1_0000 && forall u :: u in ts ==> |u.value| < 0x1_0000
    ensures Layout(hdr + Be16(|EncAll(ts)| + |Enc(t)|) + (Enc(t) + EncAll(ts) + rest), hdr, [t] + ts, rest)
  {
    assert ([t] + ts)[1..] == ts;
    assert EncAll([t] + ts) == Enc(t) + EncAll(ts);
    LayoutOf(hdr, [t] + ts, rest);
  }

  /** The frame is a discovery frame with these tags, whatever pads it. */
  ghost predicate HasTags(d: seq<u8>, hdr: seq<u8>, ts: seq<Tag>) {
    exists pad :: Layout(d, hdr, ts, pad)
  }

  /** The length field alone tells when it is not. */
  lemma LengthTells(d: seq<u8>, hdr: seq<u8>, ts: seq<Tag>)
    requires |d| >= 20 && FromBe16(d, 18) != |EncAll(ts)|
    ensures !HasTags(d, hdr, ts)
  {
    forall pad | Layout(d, hdr, ts, pad)
      ensures false
    {
      LengthField(d, hdr, ts, pad);
    }
  }

  lemma LengthStored(hdr: seq<u8>, n: nat, body: seq<u8>)
    requires |hdr| == 18
    ensures FromBe16(hdr + Be16(n) + body, 18) == n % 0x1_0000
  {
    var d := hdr + Be16(n) + body;
    assert d[18] == n / 0x100 % 0x100 && d[19] == n % 0x100;
  }

  /** The bytes of the first relay tag. */
  lemma OwnTag(d: seq<u8>, hdr: seq<u8>, ts: seq<Tag>, pad: seq<u8>)
    requires Layout(d, hdr, ts, pad) && FirstOf(ts, RELAY_SID) < |ts|
    ensures var k := FirstOf(ts, RELAY_SID);
      var at := TAGS_AT + |EncAll(ts[..k])|;
      && at + 4 + |ts[k].value| <= |d| - |pad|
      && FromBe16(d, at + 2) == |ts[k].value| && d[at + 4..at + 4 + |ts[k].value|] == ts[k].value
      && 4 + |ts[k].value| == |Enc(ts[k])| <= |EncAll(ts)|
  {
    var k := FirstOf(ts, RELAY_SID);
    EncSplit(ts, k);
    TagBytes(d, hdr, ts, pad, k);
  }

  /** Cutting the first relay tag out, by the bytes of the frame. */
  lemma CutOwn(d: seq<u8>, hdr: seq<u8>, ts: seq<Tag>, pad: seq<u8>, at: nat)
    requires Layout(d, hdr, ts, pad) && FirstOf(ts, RELAY_SID) < |ts|
    requires at == TAGS_AT + |EncAll(ts[..FirstOf(ts, RELAY_SID)])|
    ensures |d| >= 20 && at + 4 + |OwnSid(ts)| <= |d| && 4 + |OwnSid(ts)| <= FromBe16(d, 18)
    ensures FromBe16(d, at + 2) == |OwnSid(ts)| && d[at + 4..at + 4 + |OwnSid(ts)|] == OwnSid(ts)
    ensures Layout(CutOut(d, at, 4 + |OwnSid(ts)|, FromBe16(d, 18)), hdr, Others(ts), pad)
  {
    hide Flat, Layout, SetLength;
    OwnTag(d, hdr, ts, pad);
    LengthField(d, hdr, ts, pad);
    CutTag(d, hdr, ts, pad, FirstOf(ts, RELAY_SID));
  }

  lemma SourceBytes(d: seq<u8>, hdr: seq<u8>, ts: seq<Tag>, pad: seq<u8>)
    requires Layout(d, hdr, ts, pad)
    ensures |d| >= 20 && d[6..12] == Source(hdr)
  {
  }

  lemma MagicBytes(d: seq<u8>, at: nat, v: seq<u8>)
    requires |v| >= 8 && at + 4 + |v| <= |d| && d[at + 4..at + 4 + |v|] == v
    ensures FromBe16(d, at + 4) == MAGIC_CODE <==> v[..2] == Be16(MAGIC_CODE)
    ensures d[at + 6..at + 12] == v[2..8]
  {
    var w := d[at + 4..at + 4 + |v|];
    assert w[0] == d[at + 4] && w[1] == d[at + 5];
    assert forall i :: 0 <= i < |w| ==> w[i] == d[at + 4 + i];
    assert d[at + 6..at + 12] == w[2..8];
    assert Be16(MAGIC_CODE) == [0x81, 0x86];
    assert v[..2] == [v[0], v[1]];
  }

  /** A frame with another destination is the same frame otherwise. */
  lemma Redirect(d: seq<u8>, hdr: seq<u8>, ts: seq<Tag>, pad: seq<u8>, mac: seq<u8>)
    requires Layout(d, hdr, ts, pad) && |mac| == 6
    ensures |d| >= 20 && Layout(mac + d[6..], WithDest(hdr, mac), ts, pad)
  {
    assert mac + d[6..] == (mac + hdr[6..]) + Be16(|EncAll(ts)|) + EncAll(ts) + pad;
  }

  /** Two bytes of a sequence overwritten. */
  function SetWord(d: seq<u8>, at: nat, n: nat): seq<u8>
    requires at + 2 <= |d|
  {
    d[at := n / 0x100 % 0x100][at + 1 := n % 0x100]
  }

  lemma SetWordOf(a: seq<u8>, w: seq<u8>, c: seq<u8>, n: nat)
    requires |w| == 2
    ensures SetWord(a + w + c, |a|, n) == a + Be16(n) + c
  {
  }

  /** Shortening the value of a tag by its first eight bytes. */
  lemma ShortenTag(a: seq<u8>, t: Tag, c: seq<u8>)
    requires 8 < |t.value| < 0x1_0000
    ensures var d := a + Enc(t) + c;
      var cut := d[..|a| + 4] + d[|a| + 12..];
      && |cut| == |d| - 8
      && cut == a + (Be16(t.kind) + Be16(|t.value|) + t.value[8..]) + c
      && SetWord(cut, |a| + 2, |t.value| - 8) == a + Enc(Tag(t.kind, t.value[8..])) + c
  {
    var d := a + Enc(t) + c;
    var kind, len, v := Be16(t.kind), Be16(|t.value|), t.value;
    assert d[..|a| + 4] == a + kind + len;
    assert d[|a| + 12..] == v[8..] + c;
    assert d[..|a| + 4] + d[|a| + 12..] == (a + kind) + len + (v[8..] + c);
    SetWordOf(a + kind, len, v[8..] + c, |v| - 8);
    assert (a + kind) + Be16(|v| - 8) + (v[8..] + c) == a + (kind + Be16(|v| - 8) + v[8..]) + c;
    assert (a + kind) + len + (v[8..] + c) == a + (kind + len + v[8..]) + c;
  }

  /** The length field and a later word are overwritten independently. */
  lemma WordsCommute(d: seq<u8>, n: nat, at: nat, m: nat)
    requires 20 <= at && at + 2 <= |d|
    ensures SetWord(SetLength(d, n), at, m) == SetLength(SetWord(d, at, m), n)
  {
  }

  function StripAt(d: seq<u8>, at: nat, tagLen: nat, len: nat): seq<u8>
    requires 20 <= at && at + 12 <= |d| && 8 <= tagLen && 12 <= len
  {
    StripRedirected(d[at + 6..at + 12] + d[6..], at, tagLen, len)
  }

  function StripRedirected(moved: seq<u8>, at: nat, tagLen: nat, len: nat): seq<u8>
    requires 20 <= at && at + 12 <= |moved| && 8 <= tagLen && 12 <= len
  {
    if tagLen > 8 then SetWord(SetLength(moved[..at + 4] + moved[at + 12..], len - 8), at + 2, tagLen - 8)
    else CutOut(moved, at, 12, len)
  }

  /** A frame with one tag replaced, up to its length field. */
  lemma ReplacedTag(hdr: seq<u8>, len: seq<u8>, ts: seq<Tag>, k: nat, t: Tag, pad: seq<u8>)
    requires |hdr| == 18 && |len| == 2 && k < |ts|
    ensures var us := ts[..k] + [t] + ts[k + 1..];
      (hdr + len + EncAll(ts[..k])) + Enc(t) + (EncAll(ts[k + 1..]) + pad) == hdr + len + (EncAll(us) + pad)
  {
    var us := ts[..k] + [t] + ts[k + 1..];
    assert us[..k] == ts[..k] && us[k] == t && us[k + 1..] == ts[k + 1..];
    EncSplit(us, k);
    Regroup(hdr + len, EncAll(ts[..k]), Enc(t), EncAll(ts[k + 1..]), pad);
  }

  lemma StripLong(d: seq<u8>, hdr: seq<u8>, ts: seq<Tag>, pad: seq<u8>, k: nat)
    requires Layout(d, hdr, ts, pad) && k < |ts| && |ts[k].value| > 8
    ensures var at, t := TAGS_AT + |EncAll(ts[..k])|, ts[k];
      && at + 12 <= |d| && |EncAll(ts)| >= 8
      && Layout(SetWord(SetLength(d[..at + 4] + d[at + 12..], |EncAll(ts)| - 8), at + 2, |t.value| - 8),
                hdr, ts[..k] + [Tag(t.kind, t.value[8..])] + ts[k + 1..], pad)
  {
    var t, short := ts[k], Tag(ts[k].kind, ts[k].value[8..]);
    var at, len := TAGS_AT + |EncAll(ts[..k])|, |EncAll(ts)|;
    var us := ts[..k] + [short] + ts[k + 1..];
    assert t in ts;
    AroundTag(d, hdr, ts, pad, k);
    ShortenTag(hdr + Be16(len) + EncAll(ts[..k]), t, EncAll(ts[k + 1..]) + pad);
    WordsCommute(d[..at + 4] + d[at + 12..], len - 8, at + 2, |t.value| - 8);
    ReplacedTag(hdr, Be16(len), ts, k, short, pad);
    SetLengthOf(hdr, Be16(len), EncAll(us) + pad, len - 8);
    ShorterLength(ts, k, short);
    LayoutOf(hdr, us, pad);
  }

  lemma ShorterLength(ts: seq<Tag>, k: nat, t: Tag)
    requires k < |ts| && |t.value| + 8 == |ts[k].value|
    requires forall u :: u in ts ==> |u.value| < 0x1_0000
    ensures var us := ts[..k] + [t] + ts[k + 1..];
      && |EncAll(us)| == |EncAll(ts)| - 8
      && forall u :: u in us ==> |u.value| < 0x1_0000
  {
    var us := ts[..k] + [t] + ts[k + 1..];
    assert us[..k] == ts[..k] && us[k] == t && us[k + 1..] == ts[k + 1..];
    EncSplit(us, k);
    EncSplit(ts, k);
    assert ts[k] in ts;
  }

  /** The edits on a frame that is already redirected. */
  lemma StripMoved(moved: seq<u8>, hdr: seq<u8>, ts: seq<Tag>, pad: seq<u8>, k: nat)
    requires Layout(moved, hdr, ts, pad) && k == FirstOf(ts, RELAY_SID) < |ts| && |ts[k].value| >= 8
    ensures var at, len := TAGS_AT + |EncAll(ts[..k])|, |EncAll(ts)|;
      && at + 12 <= |moved| && 12 <= len
      && Layout(StripRedirected(moved, at, |ts[k].value|, len), hdr, Stripped(ts), pad)
  {
    hide FirstOf, Flat, Layout, SetLength;
    OwnTag(moved, hdr, ts, pad);
    if |ts[k].value| > 8 {
      StripLong(moved, hdr, ts, pad, k);
    } else {
      CutTag(moved, hdr, ts, pad, k);
      assert ts[..k] + [] + ts[k + 1..] == ts[..k] + ts[k + 1..];
    }
  }

  lemma StripBytes(d: seq<u8>, hdr: seq<u8>, ts: seq<Tag>, pad: seq<u8>, k: nat)
    requires Layout(d, hdr, ts, pad) && k == FirstOf(ts, RELAY_SID) < |ts| && |ts[k].value| >= 8
    ensures var at := TAGS_AT + |EncAll(ts[..k])|;
      && at + 12 <= |d| && 12 <= |EncAll(ts)|
      && Layout(StripAt(d, at, |ts[k].value|, |EncAll(ts)|), WithDest(hdr, ts[k].value[2..8]), Stripped(ts), pad)
  {
    hide Flat, StripRedirected, WithDest;
    var at, mac := TAGS_AT + |EncAll(ts[..k])|, ts[k].value[2..8];
    OwnTag(d, hdr, ts, pad);
    MagicBytes(d, at, ts[k].value);
    assert d[at + 6..at + 12] == mac;
    Redirect(d, hdr, ts, pad, mac);
    StripMoved(mac + d[6..], WithDest(hdr, mac), ts, pad, k);
  }

  // ---------------------------------------------------------------- the frame in its buffer

  function Swap16(x: nat): nat {
    x % 0x100 * 0x100 + x / 0x100 % 0x100
  }

  /** The length that __nat25_add_pppoe_tag takes a tag to have, its header included: the stored
      length is read without ntohs. */
  function ReadLen(bigEndian: bool, t: Tag): nat {
    (if bigEndian then |t.value| else Swap16(|t.value|)) + 4
  }

  class Skb {
    var data: seq<u8>
    var tailroom: seq<u8>     // the bytes behind the frame in its buffer
    const bigEndian: bool     // whether htons is the identity

    /** __nat25_find_pppoe_tag: the offset of the first tag of a kind, or -1. */
    method FindTag(kind: u16, ghost hdr: seq<u8>, ghost ts: seq<Tag>, ghost pad: seq<u8>) returns (at: int)
      requires Layout(data, hdr, ts, pad)
      ensures var k := FirstOf(ts, kind);
        at == if k < |ts| then TAGS_AT + |EncAll(ts[..k])| else -1
    {
      ghost var i := 0;
      at := TAGS_AT;
      LengthField(data, hdr, ts, pad);
      assert ts[..0] == [];
      while at - TAGS_AT < FromBe16(data, 18)
        invariant 0 <= i <= |ts| && i <= FirstOf(ts, kind)
        invariant at == TAGS_AT + |EncAll(ts[..i])|
        invariant |EncAll(ts[..i])| <= |EncAll(ts)|
        decreases |ts| - i
      {
        TagBytes(data, hdr, ts, pad, i);
        var tagType, tagLen := FromBe16(data, at), FromBe16(data, at + 2);
        if tagType == kind {
          return;
        }
        at := at + 4 + tagLen;
        i := i + 1;
      }
      NoMoreTags(ts, i);
      at := -1;
    }

    /** skb_pull_and_merge: close the gap and trim the frame. */
    method PullAndMerge(at: nat, len: nat) returns (ok: bool)
      modifies this
      ensures ok <==> at + len <= |old(data)|
      ensures ok ==> data == old(data)[..at] + old(data)[at + len..]
      ensures |data| + |tailroom| == |old(data)| + |old(tailroom)|
      ensures !ok ==> data == old(data)
    {
      if at + len > |data| || |data| < len {
        return false;
      }
      tailroom := data[|data| - len..] + tailroom;
      data := data[..at] + data[at + len..];
      ok := true;
    }

    /** __nat25_add_pppoe_tag: as many bytes as the tag is taken to have are copied from the tag
        buffer, and from `behind` it when these are more than the tag. */
    method AddTag(t: Tag, behind: seq<u8>, ghost hdr: seq<u8>, ghost ts: seq<Tag>, ghost pad: seq<u8>)
      returns (ok: bool, ghost newPad: seq<u8>)
      requires Layout(data, hdr, ts, pad) && |Enc(t)| <= TAG_BUF && |behind| >= 0x1_0003
      modifies this
      ensures var n := ReadLen(bigEndian, t);
        && (ok <==> n <= |old(tailroom)|)
        && n <= |Enc(t) + behind| && |newPad| == |pad|
        && data == if ok then hdr + Be16(|EncAll(ts)| + n) + ((Enc(t) + behind)[..n] + EncAll(ts) + newPad)
                   else old(data)
    {
      hide Be16, EncAll, FromBe16, Layout, SetLength;
      var stored := if bigEndian then |t.value| else Swap16(|t.value|);
      var dataLen := stored + 4;
      newPad := pad;
      if |tailroom| < dataLen {
        return false, newPad;
      }
      var front := (Enc(t) + behind)[..dataLen];
      var room := tailroom[..dataLen];
      PrependBytes(data, room, hdr, ts, pad, front);
      LengthField(data, hdr, ts, pad);
      var len := FromBe16(data, 18);
      var put := data + room;
      newPad := put[20 + dataLen + len..];
      assert put[..20] == data[..20] && put[20..20 + len] == data[20..20 + len];
      data := SetLength(put[..20] + front + put[20..20 + len] + put[20 + dataLen + len..], len + dataLen);
      tailroom := tailroom[dataLen..];
      ok := true;
    }

    /** Copy out the value of the client's own relay tag and delete the tag, if there is one; false
        when its value does not fit the new tag. */
    method TakeOwn(ghost hdr: seq<u8>, ghost ts: seq<Tag>, ghost pad: seq<u8>) returns (ok: bool, own: seq<u8>)
      requires Layout(data, hdr, ts, pad)
      modifies this
      ensures ok <==> |OwnSid(ts)| <= 28
      ensures ok ==>
        && own == OwnSid(ts) && Layout(data, hdr, Others(ts), pad)
        && |tailroom| == |old(tailroom)| + OwnTagLen(ts)
      ensures !ok ==> data == old(data)
    {
      hide FirstOf, Flat, FromBe16, Layout;
      own := [];
      var at := FindTag(RELAY_SID, hdr, ts, pad);
      if at < 0 {
        return true, own;
      }
      CutOwn(data, hdr, ts, pad, at);
      var oldLen := FromBe16(data, at + 2);
      if oldLen + 4 + 2 + 6 > TAG_BUF {
        return false, own;
      }
      own := data[at + 4..at + 4 + oldLen];
      DeleteTag(at, oldLen);
      ok := true;
    }

    method DeleteTag(at: nat, tagLen: nat)
      requires TAGS_AT <= at && at + 4 + tagLen <= |data| && 4 + tagLen <= FromBe16(data, 18)
      modifies this
      ensures data == CutOut(old(data), at, 4 + tagLen, FromBe16(old(data), 18))
      ensures |tailroom| == |old(tailroom)| + 4 + tagLen
    {
      var len := FromBe16(data, 18);
      var merged := PullAndMerge(at, 4 + tagLen);
      data := SetLength(data, len - 4 - tagLen);
    }

    /** The NAT25_INSERT branch for PADI and PADR: 0, or -1 when no tag was added.  The frame carries
        the relay tag and the client's other tags exactly on a big-endian host, for a value and a
        frame that fit.  On a little-endian host the new tag is taken to be 256 times as long: with
        less room than that the branch returns -1, with the client's own tag already gone; otherwise
        it returns 0, and behind the tag the frame holds bytes from behind the tag buffer, which the
        length field counts, modulo 2^16. */
    method InsertRelay(behind: seq<u8>, ghost hdr: seq<u8>, ghost ts: seq<Tag>, ghost pad: seq<u8>)
      returns (ret: int, ghost newPad: seq<u8>)
      requires Layout(data, hdr, ts, pad) && |behind| >= 0x1_0003
      modifies this
      ensures ret == 0 || ret == -1
      ensures var t := RelayTag(Source(hdr), OwnSid(ts));
        var n, room := ReadLen(bigEndian, t), |old(tailroom)| + OwnTagLen(ts);
        && (ret == 0 <==> |OwnSid(ts)| <= 28 && n <= room)
        && (ret == 0 ==>
              && n <= |Enc(t) + behind| && |newPad| == |pad|
              && data == hdr + Be16(|EncAll(Others(ts))| + n)
                             + ((Enc(t) + behind)[..n] + EncAll(Others(ts)) + newPad))
      ensures ret == -1 ==> data == old(data) || Layout(data, hdr, Others(ts), pad)
      ensures ret == -1 && |OwnSid(ts)| > 28 ==> data == old(data)
      ensures HasTags(data, hdr, Inserted(Source(hdr), ts)) <==>
        && bigEndian && |OwnSid(ts)| <= 28 && 12 + |OwnSid(ts)| <= |old(tailroom)| + OwnTagLen(ts)
        && |EncAll(Inserted(Source(hdr), ts))| < 0x1_0000
      ensures HasTags(data, hdr, Inserted(Source(hdr), ts)) ==>
        ret == 0 && Layout(data, hdr, Inserted(Source(hdr), ts), newPad)
    {
      hide Enc, EncAll, FirstOf, FromBe16, HasTags, Inserted, Others, Swap16;
      newPad := pad;
      InsertedLength(Source(hdr), ts);
      var ok, own := TakeOwn(hdr, ts, pad);
      if !ok {
        LengthField(data, hdr, ts, pad);
        LengthTells(data, hdr, Inserted(Source(hdr), ts));
        return -1, newPad;
      }
      SourceBytes(data, hdr, Others(ts), pad);
      LengthField(data, hdr, Others(ts), pad);
      LengthTells(data, hdr, Inserted(Source(hdr), ts));
      ok, newPad := AddTag(RelayTag(data[6..12], own), behind, hdr, Others(ts), pad);
      if ok {
        TagAdded(data, bigEndian, hdr, ts, behind, newPad);
      }
      ret := if ok then 0 else -1;
    }

    /** The edits of the NAT25_LOOKUP branch: the new destination, the gap closed, the lengths. */
    method StripTag(at: nat, tagLen: nat)
      requires 20 <= at && at + 12 <= |data| && 8 <= tagLen && 12 <= FromBe16(data, 18)
      modifies this
      ensures data == StripAt(old(data), at, tagLen, FromBe16(old(data), 18))
    {
      var len := FromBe16(data, 18);
      data := data[at + 6..at + 12] + data[6..];
      var offset := if tagLen > 8 then 4 else 0;
      var merged := PullAndMerge(at + offset, 12 - offset);
      data := SetLength(data, len - (12 - offset));
      if offset > 0 {
        data := SetWord(data, at + 2, tagLen - 8);
      }
    }

    /** The NAT25_LOOKUP branch for PADO and PADS: 0, or -1 when the answer carries no relay tag of
        this bridge. */
    method StripRelay(ghost hdr: seq<u8>, ghost ts: seq<Tag>, ghost pad: seq<u8>) returns (ret: int)
      requires Layout(data, hdr, ts, pad)
      modifies this
      ensures ret == 0 || ret == -1
      ensures var k := FirstOf(ts, RELAY_SID);
        ret == 0 <==> k < |ts| && |ts[k].value| >= 8 && ts[k].value[..2] == Be16(MAGIC_CODE)
      ensures ret == -1 ==> data == old(data)
      ensures ret == 0 ==>
        Layout(data, WithDest(hdr, ts[FirstOf(ts, RELAY_SID)].value[2..8]), Stripped(ts), pad)
    {
      hide Flat, Layout;
      ret := -1;
      var at := FindTag(RELAY_SID, hdr, ts, pad);
      if at >= 0 {
        OwnTag(data, hdr, ts, pad);
        var tagLen := FromBe16(data, at + 2);
        if tagLen >= 8 {
          MagicBytes(data, at, ts[FirstOf(ts, RELAY_SID)].value);
          if FromBe16(data, at + 4) == MAGIC_CODE {
            StripBytes(data, hdr, ts, pad, FirstOf(ts, RELAY_SID));
            LengthField(data, hdr, ts, pad);
            StripTag(at, tagLen);
            ret := 0;
          }
        }
      }
    }
  }

  lemma InsertedLength(mac: seq<u8>, ts: seq<Tag>)
    requires |mac| == 6
    ensures |Enc(RelayTag(mac, OwnSid(ts)))| == 12 + |OwnSid(ts)|
    ensures |EncAll(Others(ts))| + OwnTagLen(ts) == |EncAll(ts)|
    ensures |EncAll(Inserted(mac, ts))| == 12 + |OwnSid(ts)| + |EncAll(Others(ts))|
  {
    var k := FirstOf(ts, RELAY_SID);
    if k < |ts| {
      EncSplit(ts, k);
    }
    assert Inserted(mac, ts)[1..] == Others(ts);
  }

  /** What AddTag leaves has the relay tag in front if and only if the host is big-endian and the
      length does not wrap. */
  lemma TagAdded(d: seq<u8>, bigEndian: bool, hdr: seq<u8>, ts: seq<Tag>, behind: seq<u8>, rest: seq<u8>)
    requires |hdr| == 18 && |OwnSid(ts)| <= 28 && |behind| >= 0x1_0003
    requires |EncAll(Others(ts))| < 0x1_0000 && forall u :: u in Others(ts) ==> |u.value| < 0x1_0000
    requires var t := RelayTag(Source(hdr), OwnSid(ts)); var n := ReadLen(bigEndian, t);
      n <= |Enc(t) + behind|
      && d == hdr + Be16(|EncAll(Others(ts))| + n) + ((Enc(t) + behind)[..n] + EncAll(Others(ts)) + rest)
    ensures HasTags(d, hdr, Inserted(Source(hdr), ts))
            <==> bigEndian && |EncAll(Inserted(Source(hdr), ts))| < 0x1_0000
    ensures bigEndian && |EncAll(Inserted(Source(hdr), ts))| < 0x1_0000 ==>
      Layout(d, hdr, Inserted(Source(hdr), ts), rest)
  {
    hide Enc, Flat, FromBe16, Others, OwnSid, OwnTagLen, Swap16;
    var mac := Source(hdr);
    var t := RelayTag(mac, OwnSid(ts));
    InsertedLength(mac, ts);
    if bigEndian {
      assert (Enc(t) + behind)[..|Enc(t)|] == Enc(t);
      if |EncAll(Inserted(mac, ts))| < 0x1_0000 {
        PrependTag(hdr, t, Others(ts), rest);
      }
    } else {
      var n := ReadLen(bigEndian, t);
      LengthStored(hdr, |EncAll(Others(ts))| + n, (Enc(t) + behind)[..n] + EncAll(Others(ts)) + rest);
      SwappedLength(|EncAll(Others(ts))|, |OwnSid(ts)|);
      LengthTells(d, hdr, Inserted(mac, ts));
    }
  }

  lemma SwappedLength(len: nat, own: nat)
    requires len < 0x1_0000 && own <= 28
    ensures (len + Swap16(8 + own) + 4) % 0x1_0000 != len + 12 + own
  {
    assert Swap16(8 + own) == 0x100 * (8 + own);
  }

  /** The length of the client's own relay tag, with its header. */
  function OwnTagLen(ts: seq<Tag>): nat {
    if FirstOf(ts, RELAY_SID) < |ts| then 4 + |OwnSid(ts)| else 0
  }

  /** A whole exchange on a big-endian host: the client's discovery frame leaves with the relay tag,
      the concentrator answers with that tag among its own, and the answer reaches the client under
      the client's address with the client's own relay value, if it had one. */
  method RelayExchange(client: Skb, answer: Skb, behind: seq<u8>,
                       ghost hdr: seq<u8>, ghost ts: seq<Tag>, ghost pad: seq<u8>,
                       ghost hdr2: seq<u8>, ghost pre: seq<Tag>, ghost post: seq<Tag>, ghost pad2: seq<u8>)
    returns (sent: int, received: int)
    requires client != answer && client.bigEndian && |behind| >= 0x1_0003
    requires Layout(client.data, hdr, ts, pad) && |EncAll(Inserted(Source(hdr), ts))| < 0x1_0000
    requires |OwnSid(ts)| <= 28 && 12 + |OwnSid(ts)| <= |client.tailroom| + OwnTagLen(ts)
    requires FirstOf(pre, RELAY_SID) == |pre|
    requires Layout(answer.data, hdr2, pre + [RelayTag(Source(hdr), OwnSid(ts))] + post, pad2)
    modifies client, answer
    ensures sent == 0 && received == 0
    ensures HasTags(client.data, hdr, Inserted(Source(hdr), ts))
    ensures Layout(answer.data, WithDest(hdr2, Source(hdr)),
                   pre + (if OwnSid(ts) != [] then [Tag(RELAY_SID, OwnSid(ts))] else []) + post, pad2)
  {
    ghost var newPad;
    sent, newPad := client.InsertRelay(behind, hdr, ts, pad);
    ghost var tags := pre + [RelayTag(Source(hdr), OwnSid(ts))] + post;
    AnswerStripped(pre, Source(hdr), OwnSid(ts), post);
    assert tags[|pre|].value[..2] == Be16(MAGIC_CODE);
    received := answer.StripRelay(hdr2, tags, pad2);
  }
}
