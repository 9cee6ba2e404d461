/** What is taken from a TSTInfo, stated by position: in its bytes, and in the
    tree those bytes encode. */
module TokenFields {
  import opened Options
  import opened TimestampToken

  // ---- one header ------------------------------------------------------------------

  function Octet(b: Bytes, i: nat): int
    requires i < |b|
  {
    b[i]
  }

  /** The length written at `offset + 1`: in one byte below 128, or as 128 plus
      the number of bytes, one to four, the most significant first. */
  predicate WritesLength(data: Bytes, offset: nat, width: nat, n: nat) {
    && width <= 4 && offset + 2 + width <= |data|
    && Octet(data, offset + 1) == (if width == 0 then n else 128 + width)
    && match width
       case 0 => n < 128
       case 1 => n == Octet(data, offset + 2)
       case 2 => n == Octet(data, offset + 2) * 0x100 + Octet(data, offset + 3)
       case 3 => n == Octet(data, offset + 2) * 0x1_0000 + Octet(data, offset + 3) * 0x100 + Octet(data, offset + 4)
       case _ => n == Octet(data, offset + 2) * 0x100_0000 + Octet(data, offset + 3) * 0x1_0000 + Octet(data, offset + 4) * 0x100 + Octet(data, offset + 5)
  }

  lemma BigEndianExactly(b: Bytes)
    requires 1 <= |b| <= 4
    ensures BigEndian(b) == match |b|
                            case 1 => Octet(b, 0)
                            case 2 => Octet(b, 0) * 0x100 + Octet(b, 1)
                            case 3 => Octet(b, 0) * 0x1_0000 + Octet(b, 1) * 0x100 + Octet(b, 2)
                            case _ => Octet(b, 0) * 0x100_0000 + Octet(b, 1) * 0x1_0000 + Octet(b, 2) * 0x100 + Octet(b, 3)
  {
    assert BigEndian(b[..1]) == b[0] by { assert b[..1][..0] == []; }
    if |b| >= 2 { assert b[..2][..1] == b[..1] && BigEndian(b[..2]) == 256 * BigEndian(b[..1]) + b[1]; }
    if |b| >= 3 { assert b[..3][..2] == b[..2] && BigEndian(b[..3]) == 256 * BigEndian(b[..2]) + b[2]; }
    if |b| >= 4 { assert b[..4][..3] == b[..3] && BigEndian(b[..4]) == 256 * BigEndian(b[..3]) + b[3]; }
    assert b == b[..|b|];
  }

  /** A header is decoded exactly where a tag, a length of at most four bytes
      and that many bytes of content stand. */
  lemma DerTlvExactly(data: Bytes, offset: nat, h: Header)
    ensures DerTlv(data, offset) == Some(h)
       <==> offset + 2 <= |data| && h.tag == data[offset] && h.content >= offset + 2 && h.content + h.length <= |data|
            && WritesLength(data, offset, h.content - (offset + 2), h.length)
  {
    if offset + 2 <= |data| && data[offset + 1] > 128 && data[offset + 1] <= 132
       && offset + 2 + (Octet(data, offset + 1) - 128) <= |data| {
      BigEndianExactly(data[offset + 2..offset + 2 + (Octet(data, offset + 1) - 128)]);
    }
    hide BigEndian;
  }

  /** The identifier is 1.2.840.113549.1.9.16.1.4, seven bits a byte. */
  lemma OidExactly()
    ensures |TSTINFO_OID| == 11 && Octet(TSTINFO_OID, 0) == 1 * 40 + 2
    ensures (Octet(TSTINFO_OID, 1) - 128) * 128 + Octet(TSTINFO_OID, 2) == 840
    ensures (Octet(TSTINFO_OID, 3) - 128) * 16_384 + (Octet(TSTINFO_OID, 4) - 128) * 128 + Octet(TSTINFO_OID, 5) == 113_549
    ensures TSTINFO_OID[6..] == [1, 9, 16, 1, 4]
  {}

  /** The tags the search opens and compares, and what counts as ASCII. */
  lemma TagsExactly(tag: Byte, b: Bytes)
    ensures Constructed(tag) <==> tag in [0x30, 0x31, 0xA0]
    ensures OBJECT_IDENTIFIER == 0x06 && EXPLICIT_0 == 0xA0 && SEQUENCE == 0x30
    ensures Ascii(b) <==> forall x :: x in b ==> x <= 0x7F
  {}

  // ---- the fields of a byte string -----------------------------------------------

  function Items(data: Bytes, start: nat, end: nat): (hs: seq<Header>)
    ensures forall h :: h in hs ==> h.End() <= |data|
    ensures forall i :: 0 <= i < |hs| ==> hs[i].End() <= |data|
  {
    SiblingsInBounds(data, start, end);
    Siblings(data, start, end).0
  }

  ghost predicate WellSplit(data: Bytes, start: nat, end: nat) {
    Siblings(data, start, end).1
  }

  /** A `0x30` header, and what it holds: the contents of its `0x04` items. */
  ghost predicate HasOctets(data: Bytes, h: Header)
    requires h.End() <= |data|
  {
    h.tag == 0x30 && exists j :: 0 <= j < |Items(data, h.content, h.End())| && Items(data, h.content, h.End())[j].tag == 0x04
  }

  ghost predicate LastOctetsAt(data: Bytes, subs: seq<Header>, n: int, j: int) {
    0 <= j < n <= |subs| && subs[j].tag == 0x04 && forall k :: j < k < n ==> subs[k].tag != 0x04
  }

  /** The last OCTET STRING of a SEQUENCE holds exactly these bytes. */
  ghost predicate LastOctetsAre(data: Bytes, h: Header, d: Bytes)
    requires h.End() <= |data|
  {
    var subs := Items(data, h.content, h.End());
    h.tag == 0x30 && exists j :: LastOctetsAt(data, subs, |subs|, j) && Content(data, subs[j]) == d
  }

  /** No SEQUENCE before item `i` holds an OCTET STRING. */
  ghost predicate NoneBefore(data: Bytes, hs: seq<Header>, i: int)
    requires forall k :: 0 <= k < |hs| ==> hs[k].End() <= |data|
    requires i <= |hs|
  {
    forall k :: 0 <= k < i ==> !HasOctets(data, hs[k])
  }

  /** Item `i` is a SEQUENCE the parser opens, and its content does not split. */
  ghost predicate BrokenSequence(data: Bytes, hs: seq<Header>, i: int)
    requires forall k :: 0 <= k < |hs| ==> hs[k].End() <= |data|
  {
    0 <= i < |hs| && hs[i].tag == 0x30 && NoneBefore(data, hs, i) && !WellSplit(data, hs[i].content, hs[i].End())
  }

  ghost predicate ImprintAt(data: Bytes, hs: seq<Header>, i: int, d: Bytes)
    requires forall k :: 0 <= k < |hs| ==> hs[k].End() <= |data|
  {
    0 <= i < |hs| && NoneBefore(data, hs, i) && LastOctetsAre(data, hs[i], d)
  }

  /** Item `i` is the first that is a UTCTime or a GeneralizedTime. */
  ghost predicate FirstTimeAt(hs: seq<Header>, i: int) {
    0 <= i < |hs| && hs[i].tag in [0x17, 0x18] && forall k :: 0 <= k < i ==> hs[k].tag !in [0x17, 0x18]
  }

  // ---- the parser takes exactly those ------------------------------------------------

  /** Among the first `n` items the last OCTET STRING holds exactly this. */
  ghost predicate LastIs(data: Bytes, subs: seq<Header>, n: int, imprint: Option<Bytes>)
    requires forall h :: h in subs ==> h.End() <= |data|
    requires n <= |subs|
  {
    if imprint.None? then forall k :: 0 <= k < n ==> subs[k].tag != 0x04
    else exists j :: LastOctetsAt(data, subs, n, j) && Content(data, subs[j]) == imprint.value
  }

  lemma OneMoreOctets(data: Bytes, subs: seq<Header>, i: nat, imprint: Option<Bytes>)
    requires i < |subs| && forall h :: h in subs ==> h.End() <= |data|
    requires LastIs(data, subs, i, imprint)
    ensures LastIs(data, subs, i + 1, if subs[i].tag == 0x04 then Some(Content(data, subs[i])) else imprint)
  {
    if subs[i].tag == 0x04 {
      assert LastOctetsAt(data, subs, i + 1, i);
    } else if imprint.Some? {
      var j :| LastOctetsAt(data, subs, i, j) && Content(data, subs[j]) == imprint.value;
      assert LastOctetsAt(data, subs, i + 1, j);
    }
  }

  lemma {:induction false} LastOctetsFrom(data: Bytes, subs: seq<Header>, i: nat, imprint: Option<Bytes>)
    requires i <= |subs|
    requires forall h :: h in subs ==> h.End() <= |data|
    requires LastIs(data, subs, i, imprint)
    ensures LastIs(data, subs, |subs|, LastOctets(data, subs[i..], imprint))
    decreases |subs| - i
  {
    hide LastIs, Content;
    if i < |subs| {
      assert subs[i..][1..] == subs[i + 1..] && subs[i..][0] == subs[i];
      OneMoreOctets(data, subs, i, imprint);
      LastOctetsFrom(data, subs, i + 1, if subs[i].tag == 0x04 then Some(Content(data, subs[i])) else imprint);
    }
  }

  lemma OctetsExactly(data: Bytes, h: Header)
    requires h.End() <= |data| && h.tag == 0x30
    ensures var r := LastOctets(data, Items(data, h.content, h.End()), None);
      && (r.None? <==> !HasOctets(data, h))
      && (forall d :: r == Some(d) <==> LastOctetsAre(data, h, d))
  {
    var subs := Items(data, h.content, h.End());
    LastOctetsFrom(data, subs, 0, None);
    assert subs[0..] == subs;
    forall j, k | LastOctetsAt(data, subs, |subs|, j) && LastOctetsAt(data, subs, |subs|, k) ensures j == k {}
    hide LastOctets, Items, Content;
  }

  /** What the first `i` items leave: the fields so far, and nothing refused. */
  ghost predicate Taken(data: Bytes, hs: seq<Header>, i: int, f: Fields)
    requires forall k :: 0 <= k < |hs| ==> hs[k].End() <= |data|
  {
    && 0 <= i <= |hs|
    && (forall k :: 0 <= k < i ==> !BrokenSequence(data, hs, k))
    && (if f.imprint.None? then NoneBefore(data, hs, i)
        else exists k :: k < i && ImprintAt(data, hs, k, f.imprint.value))
    && (if f.time.None? then forall k :: 0 <= k < i ==> hs[k].tag !in [0x17, 0x18]
        else exists k :: k < i && FirstTimeAt(hs, k) && Content(data, hs[k]) == f.time.value && Ascii(f.time.value))
  }

  ghost predicate Refused(data: Bytes, hs: seq<Header>)
    requires forall k :: 0 <= k < |hs| ==> hs[k].End() <= |data|
  {
    || (exists k :: BrokenSequence(data, hs, k))
    || (exists k :: FirstTimeAt(hs, k) && !Ascii(Content(data, hs[k])))
  }

  lemma TakeSequence(data: Bytes, hs: seq<Header>, i: int, f: Fields)
    requires forall k :: 0 <= k < |hs| ==> hs[k].End() <= |data|
    requires 0 <= i < |hs| && Taken(data, hs, i, f) && hs[i].tag == 0x30 && f.imprint.None?
    ensures var r := TakeField(data, hs[i], f);
      if r.None? then Refused(data, hs) else Taken(data, hs, i + 1, r.value)
  {
    OctetsExactly(data, hs[i]);
    hide HasOctets, LastOctetsAre, Siblings, LastOctets, Ascii, Content;
    var r := TakeField(data, hs[i], f);
    assert forall k :: 0 <= k < i ==> !BrokenSequence(data, hs, k);
    assert r.None? ==> BrokenSequence(data, hs, i);
    assert r.Some? && r.value.imprint.Some? ==> ImprintAt(data, hs, i, r.value.imprint.value);
  }

  lemma TakeTime(data: Bytes, hs: seq<Header>, i: int, f: Fields)
    requires forall k :: 0 <= k < |hs| ==> hs[k].End() <= |data|
    requires 0 <= i < |hs| && Taken(data, hs, i, f) && hs[i].tag in [0x17, 0x18] && f.time.None?
    ensures var r := TakeField(data, hs[i], f);
      if r.None? then Refused(data, hs) else Taken(data, hs, i + 1, r.value)
  {
    hide LastOctetsAre, Siblings, LastOctets, Ascii;
    assert FirstTimeAt(hs, i);
    assert !HasOctets(data, hs[i]);
  }

  lemma TakeOther(data: Bytes, hs: seq<Header>, i: int, f: Fields)
    requires forall k :: 0 <= k < |hs| ==> hs[k].End() <= |data|
    requires 0 <= i < |hs| && Taken(data, hs, i, f)
    requires !(hs[i].tag == 0x30 && f.imprint.None?) && !(hs[i].tag in [0x17, 0x18] && f.time.None?)
    ensures TakeField(data, hs[i], f) == Some(f) && Taken(data, hs, i + 1, f)
  {
    hide LastOctetsAre, Siblings, LastOctets, Ascii;
    if f.imprint.Some? {
      var k :| k < i && ImprintAt(data, hs, k, f.imprint.value);
      OctetsOf(data, hs[k], f.imprint.value);
      assert !BrokenSequence(data, hs, i);
    } else {
      assert !HasOctets(data, hs[i]);
    }
  }

  lemma TakeOne(data: Bytes, hs: seq<Header>, i: int, f: Fields)
    requires forall k :: 0 <= k < |hs| ==> hs[k].End() <= |data|
    requires 0 <= i < |hs| && Taken(data, hs, i, f)
    ensures var r := TakeField(data, hs[i], f);
      if r.None? then Refused(data, hs) else Taken(data, hs, i + 1, r.value)
  {
    if hs[i].tag == 0x30 && f.imprint.None? { TakeSequence(data, hs, i, f); }
    else if hs[i].tag in [0x17, 0x18] && f.time.None? { TakeTime(data, hs, i, f); }
    else { TakeOther(data, hs, i, f); }
  }

  lemma {:induction false} TakeAll(data: Bytes, hs: seq<Header>, i: nat, f: Fields)
    requires forall k :: 0 <= k < |hs| ==> hs[k].End() <= |data|
    requires i <= |hs| && Taken(data, hs, i, f)
    ensures forall h :: h in hs[i..] ==> h.End() <= |data|
    ensures var r := TakeFields(data, hs[i..], f);
      if r.None? then Refused(data, hs) else Taken(data, hs, |hs|, r.value)
    decreases |hs| - i
  {
    hide Taken, Refused, TakeField;
    if i < |hs| {
      assert hs[i..][1..] == hs[i + 1..] && hs[i..][0] == hs[i];
      TakeOne(data, hs, i, f);
      var r := TakeField(data, hs[i], f);
      if r.Some? { TakeAll(data, hs, i + 1, r.value); }
    }
  }

  ghost predicate HasImprint(data: Bytes, hs: seq<Header>, d: Bytes)
    requires forall k :: 0 <= k < |hs| ==> hs[k].End() <= |data|
  {
    exists i :: ImprintAt(data, hs, i, d)
  }

  ghost predicate HasTime(data: Bytes, hs: seq<Header>, t: Bytes)
    requires forall k :: 0 <= k < |hs| ==> hs[k].End() <= |data|
  {
    exists i :: FirstTimeAt(hs, i) && Content(data, hs[i]) == t
  }

  lemma OneImprint(data: Bytes, hs: seq<Header>, d: Bytes, d': Bytes)
    requires forall k :: 0 <= k < |hs| ==> hs[k].End() <= |data|
    requires HasImprint(data, hs, d) && HasImprint(data, hs, d')
    ensures d == d'
  {
    var i :| ImprintAt(data, hs, i, d);
    var k :| ImprintAt(data, hs, k, d');
    OctetsExactly(data, hs[i]);
    OctetsExactly(data, hs[k]);
    assert HasOctets(data, hs[i]) && HasOctets(data, hs[k]);
    assert i == k;
  }

  lemma OneTime(data: Bytes, hs: seq<Header>, i: int, k: int)
    requires FirstTimeAt(hs, i) && FirstTimeAt(hs, k)
    ensures i == k
  {}

  lemma FirstTimeExists(hs: seq<Header>, n: int)
    requires 0 <= n < |hs| && hs[n].tag in [0x17, 0x18]
    ensures exists i :: FirstTimeAt(hs, i)
    decreases n
  {
    if k :| 0 <= k < n && hs[k].tag in [0x17, 0x18] {
      FirstTimeExists(hs, k);
    } else {
      assert FirstTimeAt(hs, n);
    }
  }

  lemma FieldsExactly(data: Bytes, hs: seq<Header>, f: Fields)
    requires forall k :: 0 <= k < |hs| ==> hs[k].End() <= |data|
    requires Taken(data, hs, |hs|, f)
    ensures !Refused(data, hs)
    ensures forall d :: f.imprint == Some(d) <==> HasImprint(data, hs, d)
    ensures forall t :: f.time == Some(t) <==> HasTime(data, hs, t)
    ensures f.imprint.None? <==> NoneBefore(data, hs, |hs|)
    ensures f.time.None? <==> forall k :: 0 <= k < |hs| ==> hs[k].tag !in [0x17, 0x18]
  {
    hide LastOctetsAre, HasOctets, Ascii;
    forall i, k | FirstTimeAt(hs, i) && FirstTimeAt(hs, k) { OneTime(data, hs, i, k); }
    forall d, d' | HasImprint(data, hs, d) && HasImprint(data, hs, d') { OneImprint(data, hs, d, d'); }
    forall i, d | ImprintAt(data, hs, i, d) ensures HasOctets(data, hs[i]) { OctetsOf(data, hs[i], d); }
    assert f.imprint.Some? ==> HasImprint(data, hs, f.imprint.value);
    assert f.time.Some? ==> HasTime(data, hs, f.time.value);
  }

  lemma OctetsOf(data: Bytes, h: Header, d: Bytes)
    requires h.End() <= |data| && LastOctetsAre(data, h, d)
    ensures HasOctets(data, h)
  {}

  /** A body is refused as malformed. */
  ghost predicate IsMalformed(body: Bytes) {
    !WellSplit(body, 0, |body|) || Refused(body, Items(body, 0, |body|))
  }

  /** What a TSTInfo gives: the imprint is the last OCTET STRING of the first
      SEQUENCE that holds one, the time is the first of either time type. It is
      malformed exactly if it, or a SEQUENCE opened for the imprint, does not
      split, or that time is not ASCII. */
  lemma BodyExactly(body: Bytes)
    ensures ParseBody(body) != NotFound
    ensures ParseBody(body) == Malformed <==> IsMalformed(body)
    ensures forall d, t :: ParseBody(body) == Token(d, t) <==>
      !IsMalformed(body) && HasImprint(body, Items(body, 0, |body|), d) && HasTime(body, Items(body, 0, |body|), t)
    ensures ParseBody(body) == Incomplete <==>
      !IsMalformed(body) && (NoneBefore(body, Items(body, 0, |body|), |Items(body, 0, |body|)|)
                             || forall h :: h in Items(body, 0, |body|) ==> h.tag !in [0x17, 0x18])
  {
    var hs := Items(body, 0, |body|);
    if WellSplit(body, 0, |body|) {
      var r := TakeFields(body, hs, Fields(None, None));
      assert hs[0..] == hs;
      TakeAll(body, hs, 0, Fields(None, None));
      if r.Some? { FieldsExactly(body, hs, r.value); }
    }
  }

  /** The outcome for a whole token, from its bytes. */
  lemma ParseExactly(token: Bytes)
    ensures ParseToken(token) == NotFound <==> Descend(token, 0, |token|) == None
    ensures forall body :: Descend(token, 0, |token|) == Some(body) ==> ParseToken(token) == ParseBody(body)
  {
    var body := Descend(token, 0, |token|);
    if body.Some? { BodyExactly(body.value); }
  }

  // ---- the fields of a tree ---------------------------------------------------------

  predicate TreeHolds(e: Element) {
    e.Node? && e.tag == 0x30 && exists c :: c in e.children && c.tag == 0x04
  }

  /** The last OCTET STRING of a SEQUENCE holds exactly these bytes. */
  ghost predicate TreeLast(e: Element, d: Bytes) {
    && e.Node? && e.tag == 0x30
    && exists j :: 0 <= j < |e.children| && e.children[j].tag == 0x04 && Body(e.children[j]) == d
                   && forall k :: j < k < |e.children| ==> e.children[k].tag != 0x04
  }

  ghost predicate TreeImprintAt(info: seq<Element>, i: int, d: Bytes) {
    0 <= i < |info| && TreeLast(info[i], d) && forall k :: 0 <= k < i ==> !TreeHolds(info[k])
  }

  predicate TreeTimeAt(info: seq<Element>, i: int) {
    0 <= i < |info| && info[i].tag in [0x17, 0x18] && forall k :: 0 <= k < i ==> info[k].tag !in [0x17, 0x18]
  }

  /** The last OCTET STRING of the first SEQUENCE that has one. */
  ghost predicate TreeImprint(info: seq<Element>, d: Bytes) {
    exists i :: TreeImprintAt(info, i, d)
  }

  /** The first element of either time type. */
  ghost predicate TreeTime(info: seq<Element>, t: Bytes) {
    exists i :: TreeTimeAt(info, i) && Body(info[i]) == t
  }

  lemma {:induction false} EachWellFormed(es: seq<Element>, i: nat)
    requires AllWellFormed(es) && i < |es|
    ensures WellFormed(es[i])
  {
    if i > 0 { EachWellFormed(es[1..], i - 1); }
  }

  lemma OctetsStand(data: Bytes, h: Header, e: Element)
    requires h.End() <= |data| && e.Node? && h.tag == e.tag == 0x30
    requires StandFor(data, Items(data, h.content, h.End()), e.children)
    ensures HasOctets(data, h) == TreeHolds(e)
    ensures forall d :: LastOctetsAre(data, h, d) <==> TreeLast(e, d)
  {
    var subs := Items(data, h.content, h.End());
    assert forall j :: 0 <= j < |subs| ==> Stands(data, subs[j], e.children[j]);
    assert forall j :: 0 <= j < |subs| ==>
      subs[j].tag == e.children[j].tag && Content(data, subs[j]) == Body(e.children[j]);
    hide Items, Stands, StandFor, Content, Body;
  }

  /** A SEQUENCE of the tree, read through its header. */
  lemma SequenceStands(data: Bytes, h: Header, e: Element)
    requires Stands(data, h, e) && WellFormed(e) && e.tag == 0x30
    ensures WellSplit(data, h.content, h.End())
    ensures HasOctets(data, h) == TreeHolds(e)
    ensures forall d :: LastOctetsAre(data, h, d) <==> TreeLast(e, d)
  {
    WellFormedIsShort(e.children);
    SiblingsOfForest(data, h.content, e.children);
    OctetsStand(data, h, e);
  }

  lemma ItemStands(data: Bytes, h: Header, e: Element)
    requires h.End() <= |data| && Stands(data, h, e) && WellFormed(e)
    ensures h.tag == e.tag && Content(data, h) == Body(e) && HasOctets(data, h) == TreeHolds(e)
    ensures h.tag == 0x30 ==> WellSplit(data, h.content, h.End())
    ensures forall d :: LastOctetsAre(data, h, d) <==> TreeLast(e, d)
  {
    if h.tag == 0x30 { SequenceStands(data, h, e); }
  }

  lemma FieldsStand(data: Bytes, hs: seq<Header>, info: seq<Element>)
    requires forall k :: 0 <= k < |hs| ==> hs[k].End() <= |data|
    requires StandFor(data, hs, info) && AllWellFormed(info)
    ensures forall k :: !BrokenSequence(data, hs, k)
    ensures forall i, d :: ImprintAt(data, hs, i, d) <==> TreeImprintAt(info, i, d)
    ensures forall i :: FirstTimeAt(hs, i) <==> TreeTimeAt(info, i)
    ensures forall i :: 0 <= i < |hs| ==> Content(data, hs[i]) == Body(info[i])
  {
    forall k | 0 <= k < |hs|
      ensures hs[k].tag == info[k].tag && Content(data, hs[k]) == Body(info[k])
      ensures HasOctets(data, hs[k]) == TreeHolds(info[k])
      ensures hs[k].tag == 0x30 ==> WellSplit(data, hs[k].content, hs[k].End())
      ensures forall d :: LastOctetsAre(data, hs[k], d) <==> TreeLast(info[k], d)
    {
      assert Stands(data, hs[k], info[k]);
      EachWellFormed(info, k);
      ItemStands(data, hs[k], info[k]);
    }
    hide HasOctets, TreeHolds, LastOctetsAre, TreeLast, WellSplit, Body, Stands, StandFor, AllWellFormed;
  }

  /** The fields of the body are those of the tree. */
  lemma BodyStands(info: seq<Element>)
    requires AllWellFormed(info)
    ensures var body := EncodeAll(info);
      var hs := Items(body, 0, |body|);
      && WellSplit(body, 0, |body|) && |hs| == |info|
      && (IsMalformed(body) <==> exists t :: TreeTime(info, t) && !Ascii(t))
      && (forall d :: HasImprint(body, hs, d) <==> TreeImprint(info, d))
      && (forall t :: HasTime(body, hs, t) <==> TreeTime(info, t))
  {
    var body := EncodeAll(info);
    WellFormedIsShort(info);
    SiblingsOfForest(body, 0, info);
    var hs := Items(body, 0, |body|);
    FieldsStand(body, hs, info);
    hide BrokenSequence, ImprintAt, TreeImprintAt, FirstTimeAt, TreeTimeAt, Ascii;
    forall d | HasImprint(body, hs, d) || TreeImprint(info, d) ensures HasImprint(body, hs, d) && TreeImprint(info, d) {
      var i :| ImprintAt(body, hs, i, d) || TreeImprintAt(info, i, d);
    }
  }

  /** Parsing any encoded token whose first content-type identifier wraps a
      TSTInfo, by the tree of that TSTInfo alone. */
  lemma TokenRoundTrip(es: seq<Element>, info: seq<Element>)
    requires AllWellFormed(es) && AllWellFormed(info) && FirstWraps(es, EncodeAll(info))
    ensures ParseToken(EncodeAll(es)) != NotFound
    ensures forall d, t :: ParseToken(EncodeAll(es)) == Token(d, t)
              <==> TreeImprint(info, d) && TreeTime(info, t) && Ascii(t)
    ensures ParseToken(EncodeAll(es)) == Malformed <==> exists t :: TreeTime(info, t) && !Ascii(t)
    ensures ParseToken(EncodeAll(es)) == Incomplete
       <==> (forall t :: TreeTime(info, t) ==> Ascii(t))
            && ((forall d :: !TreeImprint(info, d)) || (forall t :: !TreeTime(info, t)))
  {
    TokenSearch(es);
    FirstIdentifierFound(es, None, EncodeAll(info));
    ParseExactly(EncodeAll(es));
    BodyExactly(EncodeAll(info));
    BodyStands(info);
  }
}
