/** Reading an RFC 3161 timestamp token: tag/length/value decoding, the
    structural search for the TSTInfo, and the fields taken from it. */
module TimestampToken {
  import opened Options

  type Byte = b: int | 0 <= b < 256
  type Bytes = seq<Byte>

  const OBJECT_IDENTIFIER: Byte := 0x06
  const SEQUENCE: Byte := 0x30
  const SET: Byte := 0x31
  const EXPLICIT_0: Byte := 0xA0
  const OCTET_STRING: Byte := 0x04
  const NULL: Byte := 0x05
  const UTC_TIME: Byte := 0x17
  const GENERALIZED_TIME: Byte := 0x18

  const TSTINFO_OID: Bytes := [0x2a, 0x86, 0x48, 0x86, 0xf7, 0x0d, 0x01, 0x09, 0x10, 0x01, 0x04]

  // ---- one element ----------------------------------------------------------------

  /** A decoded header: where the content starts and how long it is. */
  datatype Header = Header(tag: Byte, content: nat, length: nat) {
    function End(): nat { content + length }
  }

  function BigEndian(b: Bytes): nat {
    if b == [] then 0 else 256 * BigEndian(b[..|b| - 1]) + b[|b| - 1]
  }

  function DerTlv(data: Bytes, offset: nat): (h: Option<Header>)
    ensures h.Some? ==> offset + 2 <= h.value.content && h.value.End() <= |data|
  {
    if offset + 2 > |data| then None
    else
      var first := data[offset + 1];
      var count: int := first as int - 128;
      if first >= 128 && (count == 0 || count > 4 || offset + 2 + count > |data|) then None
      else
        var header := if first >= 128 then 2 + count else 2;
        var length := if first >= 128 then BigEndian(data[offset + 2..offset + 2 + count]) else first;
        if offset + header + length > |data| then None
        else Some(Header(data[offset], offset + header, length))
  }

  /** The content a header stands for. */
  function Content(data: Bytes, h: Header): Bytes
    requires h.End() <= |data|
  {
    data[h.content..h.End()]
  }

  // ---- walking siblings ------------------------------------------------------------

  /** The headers met from `start` while below `end`, and whether the walk got
      there without a malformed header. */
  function Siblings(data: Bytes, start: nat, end: nat): (r: (seq<Header>, bool))
    decreases if start <= |data| then |data| - start else 0
  {
    if start >= end then ([], true)
    else
      match DerTlv(data, start)
      case None => ([], false)
      case Some(h) =>
        var (rest, ok) := Siblings(data, h.End(), end);
        ([h] + rest, ok)
  }

  method IterTlv(data: Bytes, start: nat, end: nat) returns (items: seq<Header>, ok: bool)
    ensures items == Siblings(data, start, end).0 && ok == Siblings(data, start, end).1
  {
    items, ok := [], true;
    var offset := start;
    while offset < end
      invariant ok
      invariant Siblings(data, start, end).0 == items + Siblings(data, offset, end).0
      invariant Siblings(data, start, end).1 == Siblings(data, offset, end).1
      decreases if offset <= |data| then |data| - offset else 0, end - offset
    {
      var h := DerTlv(data, offset);
      if h.None? {
        ok := false;
        return;
      }
      items := items + [h.value];
      offset := h.value.End();
    }
  }

  // ---- the search --------------------------------------------------------------------

  predicate Constructed(tag: Byte) {
    tag == SEQUENCE || tag == SET || tag == EXPLICIT_0
  }

  predicate IsTstInfoOid(data: Bytes, h: Header)
    requires h.End() <= |data|
  {
    h.tag == OBJECT_IDENTIFIER && Content(data, h) == TSTINFO_OID
  }

  /** What follows the content-type identifier at `next`: `[0]` wrapping a
      SEQUENCE directly gives that SEQUENCE's content. */
  function WrappedSequence(data: Bytes, next: nat): Option<Bytes> {
    var wrapper :- DerTlv(data, next);
    var inner :- DerTlv(data, wrapper.content);
    if wrapper.tag == EXPLICIT_0 && inner.tag == SEQUENCE then Some(Content(data, inner)) else None
  }

  function Descend(data: Bytes, start: nat, end: nat): Option<Bytes>
    decreases if start <= |data| then |data| - start else 0
  {
    if start >= end then None
    else
      match DerTlv(data, start)
      case None => None
      case Some(h) =>
        if IsTstInfoOid(data, h) then
          if h.End() >= end then None else WrappedSequence(data, h.End())
        else
          var found := if Constructed(h.tag) then Descend(data, h.content, h.End()) else None;
          if found.Some? then found else Descend(data, h.End(), end)
  }

  method FindIn(data: Bytes, start: nat, end: nat) returns (r: Option<Bytes>)
    ensures r == Descend(data, start, end)
    decreases if start <= |data| then |data| - start else 0
  {
    var offset := start;
    while offset < end
      invariant offset >= start
      invariant Descend(data, start, end) == Descend(data, offset, end)
      decreases if offset <= |data| then |data| - offset else 0, end - offset
    {
      var h := DerTlv(data, offset);
      if h.None? { return None; }
      var e := h.value;
      if IsTstInfoOid(data, e) {
        if e.End() >= end { return None; }
        return WrappedSequence(data, e.End());
      }
      if Constructed(e.tag) {
        var found := FindIn(data, e.content, e.End());
        if found.Some? { return found; }
      }
      offset := e.End();
    }
    r := None;
  }

  method FindTstInfo(data: Bytes) returns (r: Option<Bytes>)
    ensures r == Descend(data, 0, |data|)
  {
    r := FindIn(data, 0, |data|);
  }

  // ---- every answer is reached through headers only ------------------------------------

  /** One move of the search: past an element, or into a constructed one. */
  predicate Moves(data: Bytes, a: nat, b: nat) {
    var h := DerTlv(data, a);
    h.Some? && (b == h.value.End() || (Constructed(h.value.tag) && b == h.value.content))
  }

  ghost predicate HeaderChain(data: Bytes, chain: seq<nat>) {
    chain != [] && forall i :: 0 <= i < |chain| - 1 ==> Moves(data, chain[i], chain[i + 1])
  }

  /** The answer `r` is the SEQUENCE two headers after an identifier at `at`. */
  ghost predicate TokenAt(data: Bytes, at: nat, r: Bytes) {
    var h := DerTlv(data, at);
    h.Some? && IsTstInfoOid(data, h.value) && WrappedSequence(data, h.value.End()) == Some(r)
  }

  lemma {:induction false} FoundThroughHeaders(data: Bytes, start: nat, end: nat)
    ensures Descend(data, start, end).Some? ==>
      exists chain :: HeaderChain(data, chain) && chain[0] == start
        && TokenAt(data, chain[|chain| - 1], Descend(data, start, end).value)
    decreases if start <= |data| then |data| - start else 0
  {
    hide DerTlv, WrappedSequence;
    if Descend(data, start, end).Some? {
      var h, r := DerTlv(data, start).value, Descend(data, start, end).value;
      if IsTstInfoOid(data, h) {
        assert HeaderChain(data, [start]) && TokenAt(data, [start][0], r);
      } else {
        var inner := Constructed(h.tag) && Descend(data, h.content, h.End()).Some?;
        var next := if inner then h.content else h.End();
        FoundThroughHeaders(data, next, if inner then h.End() else end);
        var chain :| HeaderChain(data, chain) && chain[0] == next && TokenAt(data, chain[|chain| - 1], r);
        var longer := [start] + chain;
        forall i | 0 <= i < |longer| - 1 ensures Moves(data, longer[i], longer[i + 1]) {
          if i > 0 { assert longer[i] == chain[i - 1] && longer[i + 1] == chain[i]; }
        }
        assert HeaderChain(data, longer) && longer[|longer| - 1] == chain[|chain| - 1];
      }
    }
  }

  // ---- encoding -----------------------------------------------------------------------

  const LENGTH_LIMIT: nat := 0x1_0000_0000

  function Base256(n: nat, width: nat): (b: Bytes)
    ensures |b| == width
  {
    if width == 0 then [] else Base256(n / 256, width - 1) + [n % 256]
  }

  function LengthWidth(n: nat): nat {
    if n < 0x100 then 1 else if n < 0x1_0000 then 2 else if n < 0x100_0000 then 3 else 4
  }

  /** The shortest definite length form (section 8.1.3 of ITU-T X.690), for
      lengths below the limit. */
  function EncodeLength(n: nat): Bytes {
    if n < 128 then [n] else [128 + LengthWidth(n)] + Base256(n, LengthWidth(n))
  }

  function EncodeTlv(tag: Byte, content: Bytes): Bytes {
    [tag] + EncodeLength(|content|) + content
  }

  function Power256(width: nat): nat {
    if width == 0 then 1 else 256 * Power256(width - 1)
  }

  lemma {:induction false} Base256RoundTrip(n: nat, width: nat)
    requires n < Power256(width)
    ensures BigEndian(Base256(n, width)) == n
    decreases width
  {
    if width > 0 {
      Base256RoundTrip(n / 256, width - 1);
      var b := Base256(n, width);
      assert b[..|b| - 1] == Base256(n / 256, width - 1) && b[|b| - 1] == n % 256;
    }
  }

  lemma WidthSuffices(n: nat)
    requires n < LENGTH_LIMIT
    ensures n < Power256(LengthWidth(n))
  {
    assert Power256(1) == 0x100 && Power256(2) == 0x1_0000;
    assert Power256(3) == 0x100_0000 && Power256(4) == LENGTH_LIMIT;
  }

  /** `x` stands in `data` at `start`. */
  predicate At(data: Bytes, start: nat, x: Bytes) {
    start + |x| <= |data| && data[start..start + |x|] == x
  }

  lemma AtSplit(data: Bytes, start: nat, a: Bytes, b: Bytes)
    requires At(data, start, a + b)
    ensures At(data, start, a) && At(data, start + |a|, b)
  {
    assert data[start..start + |a|] == (a + b)[..|a|];
    assert data[start + |a|..start + |a| + |b|] == (a + b)[|a|..];
  }

  lemma ShortLengthDecodes(data: Bytes, start: nat, tag: Byte, n: nat)
    requires n < 128 && start + 2 + n <= |data| && data[start] == tag && data[start + 1] == n
    ensures DerTlv(data, start) == Some(Header(tag, start + 2, n))
  {}

  lemma LongLengthDecodes(data: Bytes, start: nat, tag: Byte, n: nat, width: nat)
    requires 1 <= width <= 4 && start + 2 + width + n <= |data|
    requires data[start] == tag && data[start + 1] == 128 + width
    requires BigEndian(data[start + 2..start + 2 + width]) == n
    ensures DerTlv(data, start) == Some(Header(tag, start + 2 + width, n))
  {
    hide BigEndian;
  }

  lemma LengthDecodes(data: Bytes, start: nat, tag: Byte, n: nat)
    requires n < LENGTH_LIMIT && At(data, start, [tag] + EncodeLength(n))
    requires start + 1 + |EncodeLength(n)| + n <= |data|
    ensures DerTlv(data, start) == Some(Header(tag, start + 1 + |EncodeLength(n)|, n))
  {
    hide DerTlv, BigEndian, Base256, Power256;
    AtSplit(data, start, [tag], EncodeLength(n));
    assert data[start] == data[start..start + 1][0];
    var length := data[start + 1..start + 1 + |EncodeLength(n)|];
    assert data[start + 1] == length[0];
    if n < 128 {
      ShortLengthDecodes(data, start, tag, n);
    } else {
      var width := LengthWidth(n);
      assert data[start + 2..start + 2 + width] == length[1..] == Base256(n, width);
      WidthSuffices(n);
      Base256RoundTrip(n, width);
      LongLengthDecodes(data, start, tag, n, width);
    }
  }

  /** Decoding an encoded element, wherever it stands, gives back its tag and
      exactly its content. */
  lemma TlvRoundTrip(data: Bytes, start: nat, tag: Byte, content: Bytes)
    requires |content| < LENGTH_LIMIT && At(data, start, EncodeTlv(tag, content))
    ensures var h := DerTlv(data, start);
            h.Some? && h.value.tag == tag && Content(data, h.value) == content
            && h.value.End() == start + |EncodeTlv(tag, content)|
  {
    AtSplit(data, start, [tag] + EncodeLength(|content|), content);
    LengthDecodes(data, start, tag, |content|);
  }

  // ---- token trees -----------------------------------------------------------------------

  datatype Element =
    | Primitive(tag: Byte, content: Bytes)
    | Node(tag: Byte, children: seq<Element>)

  function Encode(e: Element): Bytes
    decreases e, 1
  {
    EncodeTlv(e.tag, Body(e))
  }

  function Body(e: Element): Bytes
    decreases e, 0
  {
    if e.Primitive? then e.content else EncodeAll(e.children)
  }

  function EncodeAll(es: seq<Element>): Bytes
    decreases es, 2
  {
    if es == [] then [] else Encode(es[0]) + EncodeAll(es[1..])
  }

  /** Constructed tags head nodes, other tags head opaque content, and every
      content is shorter than 2^32 bytes. */
  predicate WellFormed(e: Element) {
    && e.Node? == Constructed(e.tag)
    && |Body(e)| < LENGTH_LIMIT
    && (e.Node? ==> AllWellFormed(e.children))
  }

  predicate AllWellFormed(es: seq<Element>) {
    es == [] || (WellFormed(es[0]) && AllWellFormed(es[1..]))
  }

  predicate AllShort(es: seq<Element>) {
    es == [] || (|Body(es[0])| < LENGTH_LIMIT && AllShort(es[1..]))
  }

  lemma {:induction false} WellFormedIsShort(es: seq<Element>)
    requires AllWellFormed(es)
    ensures AllShort(es)
  {
    if es != [] {
      WellFormedIsShort(es[1..]);
    }
  }

  predicate IsOidElement(e: Element) {
    e.Primitive? && e.tag == OBJECT_IDENTIFIER && e.content == TSTINFO_OID
  }

  /** The SEQUENCE content that a header read at the front of a forest would
      give; `beyond` is what one read after its end would. */
  function Next(es: seq<Element>, beyond: Option<Bytes>): Option<Bytes> {
    if es == [] then beyond else if es[0].tag == SEQUENCE then Some(Body(es[0])) else None
  }

  /** What follows an identifier: the SEQUENCE a `[0]` starts with. The code does
      not ask where the wrapper ends, so an empty one is read past. */
  function Wrapped(es: seq<Element>, beyond: Option<Bytes>): Option<Bytes> {
    if es == [] || !es[0].Node? || es[0].tag != EXPLICIT_0 then None
    else Next(es[0].children, Next(es[1..], beyond))
  }

  /** The search stated on the tree. */
  function Search(es: seq<Element>, beyond: Option<Bytes>): Option<Bytes> {
    if es == [] then None
    else if IsOidElement(es[0]) then Wrapped(es[1..], beyond)
    else
      var found := if es[0].Node? then Search(es[0].children, Next(es[1..], beyond)) else None;
      if found.Some? then found else Search(es[1..], beyond)
  }

  lemma HeaderOf(data: Bytes, start: nat, e: Element)
    requires |Body(e)| < LENGTH_LIMIT && At(data, start, Encode(e))
    ensures var h := DerTlv(data, start);
            h.Some? && h.value.tag == e.tag && Content(data, h.value) == Body(e)
            && h.value.End() == start + |Encode(e)|
            && At(data, h.value.content, Body(e))
  {
    TlvRoundTrip(data, start, e.tag, Body(e));
  }

  lemma SplitFirst(data: Bytes, start: nat, es: seq<Element>)
    requires es != [] && At(data, start, EncodeAll(es))
    ensures At(data, start, Encode(es[0])) && At(data, start + |Encode(es[0])|, EncodeAll(es[1..]))
    ensures |EncodeAll(es)| == |Encode(es[0])| + |EncodeAll(es[1..])| && |Encode(es[0])| > 0
  {
    AtSplit(data, start, Encode(es[0]), EncodeAll(es[1..]));
  }

  /** A header read at `at` is a SEQUENCE with this content. */
  function SequenceAt(data: Bytes, at: nat): Option<Bytes> {
    var h :- DerTlv(data, at);
    if h.tag == SEQUENCE then Some(Content(data, h)) else None
  }

  lemma NextIsSequenceAt(data: Bytes, start: nat, es: seq<Element>, beyond: Option<Bytes>)
    requires AllWellFormed(es) && At(data, start, EncodeAll(es))
    requires beyond == SequenceAt(data, start + |EncodeAll(es)|)
    ensures SequenceAt(data, start) == Next(es, beyond)
  {
    hide DerTlv;
    if es != [] {
      SplitFirst(data, start, es);
      HeaderOf(data, start, es[0]);
    }
  }

  lemma WrappedSequenceIsInside(data: Bytes, start: nat, h: Header)
    requires DerTlv(data, start) == Some(h)
    ensures WrappedSequence(data, start) == if h.tag == EXPLICIT_0 then SequenceAt(data, h.content) else None
  {
    hide DerTlv;
  }

  /** The content of an encoded node is the forest of its children. */
  lemma ChildrenOf(data: Bytes, start: nat, e: Element, h: Header)
    requires e.Node? && |Body(e)| < LENGTH_LIMIT && At(data, start, Encode(e)) && DerTlv(data, start) == Some(h)
    ensures At(data, h.content, EncodeAll(e.children))
    ensures h.content + |EncodeAll(e.children)| == start + |Encode(e)|
  {
    hide DerTlv, EncodeTlv, Encode, EncodeAll;
    HeaderOf(data, start, e);
  }

  /** What follows an identifier, on the bytes and on the tree. */
  lemma WrappedIsNext(data: Bytes, start: nat, es: seq<Element>, beyond: Option<Bytes>)
    requires es != [] && AllWellFormed(es) && At(data, start, EncodeAll(es))
    requires beyond == SequenceAt(data, start + |EncodeAll(es)|)
    ensures WrappedSequence(data, start) == Wrapped(es, beyond)
  {
    hide DerTlv, EncodeTlv, Encode, EncodeAll, SequenceAt, WrappedSequence, Next, Content, At, Body;
    var e := es[0];
    SplitFirst(data, start, es);
    HeaderOf(data, start, e);
    var h := DerTlv(data, start).value;
    WrappedSequenceIsInside(data, start, h);
    if e.tag == EXPLICIT_0 {
      ChildrenOf(data, start, e, h);
      NextIsSequenceAt(data, start + |Encode(e)|, es[1..], beyond);
      NextIsSequenceAt(data, h.content, e.children, Next(es[1..], beyond));
    }
  }

  /** The byte-level search of an encoded forest is the search of the tree,
      whatever bytes surround it. */
  lemma {:induction false} SearchesTheTree(data: Bytes, start: nat, es: seq<Element>, beyond: Option<Bytes>)
    requires AllWellFormed(es) && At(data, start, EncodeAll(es))
    requires beyond == SequenceAt(data, start + |EncodeAll(es)|)
    ensures Descend(data, start, start + |EncodeAll(es)|) == Search(es, beyond)
    decreases es
  {
    hide DerTlv, SequenceAt, Next, Wrapped;
    if es != [] {
      var e := es[0];
      SplitFirst(data, start, es);
      HeaderOf(data, start, e);
      var h, next := DerTlv(data, start).value, start + |Encode(e)|;
      if IsOidElement(e) {
        AfterOid(data, start, es, h, beyond);
      } else {
        if e.Node? {
          NextIsSequenceAt(data, next, es[1..], beyond);
          SearchesTheTree(data, h.content, e.children, Next(es[1..], beyond));
        }
        SearchesTheTree(data, next, es[1..], beyond);
        DescendPast(data, start, start + |EncodeAll(es)|, h);
      }
    }
  }

  lemma DescendPast(data: Bytes, start: nat, end: nat, h: Header)
    requires start < end && DerTlv(data, start) == Some(h) && !IsTstInfoOid(data, h)
    ensures Descend(data, start, end)
         == if Constructed(h.tag) && Descend(data, h.content, h.End()).Some?
            then Descend(data, h.content, h.End()) else Descend(data, h.End(), end)
  {}

  lemma AfterOid(data: Bytes, start: nat, es: seq<Element>, h: Header, beyond: Option<Bytes>)
    requires es != [] && IsOidElement(es[0]) && AllWellFormed(es)
    requires At(data, start, EncodeAll(es)) && DerTlv(data, start) == Some(h) && h.End() == start + |Encode(es[0])|
    requires h.tag == OBJECT_IDENTIFIER && Content(data, h) == TSTINFO_OID
    requires beyond == SequenceAt(data, start + |EncodeAll(es)|)
    ensures Descend(data, start, start + |EncodeAll(es)|) == Search(es, beyond)
  {
    hide DerTlv, WrappedSequence, EncodeTlv, SequenceAt, Next;
    SplitFirst(data, start, es);
    if |es| > 1 {
      SplitFirst(data, h.End(), es[1..]);
      WrappedIsNext(data, h.End(), es[1..], beyond);
    }
  }

  /** On every whole token of well-formed elements. */
  lemma TokenSearch(es: seq<Element>)
    requires AllWellFormed(es)
    ensures Descend(EncodeAll(es), 0, |EncodeAll(es)|) == Search(es, None)
  {
    hide Search;
    SearchesTheTree(EncodeAll(es), 0, es, None);
  }

  // ---- which answer ------------------------------------------------------------------------

  /** An answer the search could give, and whether it lies inside the wrapper
      that follows the identifier. */
  datatype Answer = Answer(body: Bytes, inside: bool)

  /** In document order, the answers after each identifier that no other one
      precedes among its own siblings or those of an element around it. */
  function Answers(es: seq<Element>, beyond: Option<Bytes>): seq<Answer> {
    if es == [] then []
    else if IsOidElement(es[0]) then
      var body := Wrapped(es[1..], beyond);
      if body.None? then [] else [Answer(body.value, es[1].children != [])]
    else
      (if es[0].Node? then Answers(es[0].children, Next(es[1..], beyond)) else []) + Answers(es[1..], beyond)
  }

  /** The search gives the first of them, if there is one. */
  lemma {:induction false} SearchGivesFirst(es: seq<Element>, beyond: Option<Bytes>)
    ensures Search(es, beyond)
         == if Answers(es, beyond) == [] then None else Some(Answers(es, beyond)[0].body)
    decreases es
  {
    if es != [] && !IsOidElement(es[0]) {
      if es[0].Node? {
        SearchGivesFirst(es[0].children, Next(es[1..], beyond));
      }
      SearchGivesFirst(es[1..], beyond);
    }
  }

  /** The identifier, then a `[0]` whose first child is a SEQUENCE. */
  predicate WrapsHere(es: seq<Element>, body: Bytes) {
    && |es| > 1 && IsOidElement(es[0]) && es[1].Node? && es[1].tag == EXPLICIT_0 && es[1].children != []
    && es[1].children[0].tag == SEQUENCE && Body(es[1].children[0]) == body
  }

  /** Somewhere in the tree. */
  predicate Holds(es: seq<Element>, body: Bytes) {
    es != [] && (WrapsHere(es, body) || (es[0].Node? && Holds(es[0].children, body)) || Holds(es[1..], body))
  }

  /** An identifier is followed by an empty `[0]` and then, wherever the next
      header stands, by a SEQUENCE. */
  predicate ReadsPast(es: seq<Element>, beyond: Option<Bytes>) {
    es != []
    && if IsOidElement(es[0]) then
         |es| > 1 && es[1].Node? && es[1].tag == EXPLICIT_0 && es[1].children == [] && Next(es[2..], beyond).Some?
       else
         (es[0].Node? && ReadsPast(es[0].children, Next(es[1..], beyond))) || ReadsPast(es[1..], beyond)
  }

  /** Every answer that lies inside its wrapper is held by the tree, and all of
      them do exactly if nothing is read past an empty wrapper. */
  lemma {:induction false} AnswersAreHeld(es: seq<Element>, beyond: Option<Bytes>)
    ensures forall a :: a in Answers(es, beyond) && a.inside ==> Holds(es, a.body)
    ensures (forall a :: a in Answers(es, beyond) ==> a.inside) <==> !ReadsPast(es, beyond)
    decreases es
  {
    if es != [] {
      if IsOidElement(es[0]) {
        if |es| > 1 && es[1].Node? && es[1].tag == EXPLICIT_0 {
          assert es[1..][1..] == es[2..];
          assert Wrapped(es[1..], beyond).Some? ==> Answers(es, beyond)[0] in Answers(es, beyond);
        }
      } else {
        var inner := if es[0].Node? then Answers(es[0].children, Next(es[1..], beyond)) else [];
        if es[0].Node? {
          AnswersAreHeld(es[0].children, Next(es[1..], beyond));
        }
        AnswersAreHeld(es[1..], beyond);
        assert forall a :: a in Answers(es, beyond) <==> a in inner || a in Answers(es[1..], beyond);
      }
    }
  }

  /** What a whole-token search answers, read past no empty wrapper, is held. */
  lemma AnswerIsHeld(es: seq<Element>)
    requires AllWellFormed(es) && !ReadsPast(es, None)
    ensures var r := Descend(EncodeAll(es), 0, |EncodeAll(es)|);
            r.Some? ==> Holds(es, r.value)
  {
    TokenSearch(es);
    SearchGivesFirst(es, None);
    AnswersAreHeld(es, None);
  }

  predicate HasOid(es: seq<Element>) {
    es != [] && (IsOidElement(es[0]) || (es[0].Node? && HasOid(es[0].children)) || HasOid(es[1..]))
  }

  /** The first identifier in document order wraps this SEQUENCE. */
  predicate FirstWraps(es: seq<Element>, body: Bytes) {
    es != []
    && if IsOidElement(es[0]) then WrapsHere(es, body)
       else if es[0].Node? && HasOid(es[0].children) then FirstWraps(es[0].children, body)
       else FirstWraps(es[1..], body)
  }

  lemma {:induction false} NoOidNoAnswer(es: seq<Element>, beyond: Option<Bytes>)
    requires !HasOid(es)
    ensures Answers(es, beyond) == []
    decreases es
  {
    if es != [] {
      if es[0].Node? { NoOidNoAnswer(es[0].children, Next(es[1..], beyond)); }
      NoOidNoAnswer(es[1..], beyond);
    }
  }

  /** Then it is the answer, however often the identifier comes again, as it
      does among the signed attributes of a token. */
  lemma {:induction false} FirstIdentifierFound(es: seq<Element>, beyond: Option<Bytes>, body: Bytes)
    requires FirstWraps(es, body)
    ensures Search(es, beyond) == Some(body)
    decreases es
  {
    if !IsOidElement(es[0]) {
      if es[0].Node? && HasOid(es[0].children) {
        FirstIdentifierFound(es[0].children, Next(es[1..], beyond), body);
      } else {
        if es[0].Node? {
          NoOidNoAnswer(es[0].children, Next(es[1..], beyond));
          SearchGivesFirst(es[0].children, Next(es[1..], beyond));
        }
        FirstIdentifierFound(es[1..], beyond, body);
      }
    }
  }

  /** An empty wrapper is read past: the answer is a SEQUENCE beside it. */
  lemma EmptyWrapperIsReadPast()
    ensures var es := [Primitive(OBJECT_IDENTIFIER, TSTINFO_OID), Node(EXPLICIT_0, []), Node(SEQUENCE, [Primitive(NULL, [])])];
            && AllWellFormed(es) && ReadsPast(es, None) && !Holds(es, [NULL, 0])
            && Descend(EncodeAll(es), 0, |EncodeAll(es)|) == Some([NULL, 0])
  {
    var oid, wrapper := Primitive(OBJECT_IDENTIFIER, TSTINFO_OID), Node(EXPLICIT_0, []);
    var sequence := Node(SEQUENCE, [Primitive(NULL, [])]);
    var es := [oid, wrapper, sequence];
    assert es[1..] == [wrapper, sequence] && es[1..][1..] == es[2..] == [sequence] && [sequence][1..] == [];
    NullSequence();
    assert Next([sequence], None) == Some([NULL, 0]);
    assert WellFormed(oid) && WellFormed(wrapper) && AllWellFormed([sequence]) && AllWellFormed([wrapper, sequence]);
    TokenSearch(es);
    assert !Holds([sequence], [NULL, 0]) && !Holds([wrapper, sequence], [NULL, 0]);
  }

  lemma NullSequence()
    ensures var sequence := Node(SEQUENCE, [Primitive(NULL, [])]);
            Body(sequence) == [NULL, 0] && WellFormed(sequence) && !Holds(sequence.children, [NULL, 0])
  {
    var inner := Primitive(NULL, []);
    assert [inner][1..] == [];
    assert Encode(inner) == [NULL, 0];
    assert EncodeAll([inner]) == [NULL, 0];
  }

  /** Each identifier that a `[0]` follows has an OCTET STRING in it: the
      encapsulation of section 5.2 of RFC 5652. */
  predicate Encapsulates(es: seq<Element>) {
    es == []
    || ( && (IsOidElement(es[0]) && |es| > 1 && es[1].Node? && es[1].tag == EXPLICIT_0 ==>
               es[1].children != [] && es[1].children[0].tag == OCTET_STRING)
         && (es[0].Node? ==> Encapsulates(es[0].children))
         && Encapsulates(es[1..]))
  }

  lemma {:induction false} OctetStringIsNotOpened(es: seq<Element>, beyond: Option<Bytes>)
    requires Encapsulates(es)
    ensures Search(es, beyond) == None
    decreases es
  {
    if es != [] && !IsOidElement(es[0]) {
      if es[0].Node? {
        OctetStringIsNotOpened(es[0].children, Next(es[1..], beyond));
      }
      OctetStringIsNotOpened(es[1..], beyond);
    }
  }

  // ---- siblings of a forest -----------------------------------------------------------------

  /** Headers that stand for exactly these elements, in order. */
  ghost predicate StandFor(data: Bytes, hs: seq<Header>, es: seq<Element>) {
    |hs| == |es| && forall i :: 0 <= i < |hs| ==> Stands(data, hs[i], es[i])
  }

  ghost predicate Stands(data: Bytes, h: Header, e: Element) {
    h.End() <= |data| && h.tag == e.tag && Content(data, h) == Body(e)
  }

  lemma StandForCons(data: Bytes, h: Header, e: Element, hs: seq<Header>, es: seq<Element>)
    requires Stands(data, h, e) && StandFor(data, hs, es)
    ensures StandFor(data, [h] + hs, [e] + es)
  {
    forall i | 0 <= i < |[h] + hs| ensures Stands(data, ([h] + hs)[i], ([e] + es)[i]) {
      if i > 0 { assert Stands(data, hs[i - 1], es[i - 1]); }
    }
  }

  lemma SiblingsUnfold(data: Bytes, start: nat, end: nat, h: Header)
    requires start < end && DerTlv(data, start) == Some(h)
    ensures Siblings(data, start, end).0 == [h] + Siblings(data, h.End(), end).0
    ensures Siblings(data, start, end).1 == Siblings(data, h.End(), end).1
  {}

  /** Walking the siblings of any concatenation of encoded elements, whatever
      their tags and contents, yields exactly those elements. */
  lemma {:induction false} SiblingsOfForest(data: Bytes, start: nat, es: seq<Element>)
    requires AllShort(es) && At(data, start, EncodeAll(es))
    ensures Siblings(data, start, start + |EncodeAll(es)|).1
    ensures StandFor(data, Siblings(data, start, start + |EncodeAll(es)|).0, es)
    decreases es
  {
    hide DerTlv;
    if es != [] {
      var end := start + |EncodeAll(es)|;
      SplitFirst(data, start, es);
      HeaderOf(data, start, es[0]);
      var h := DerTlv(data, start).value;
      SiblingsOfForest(data, h.End(), es[1..]);
      SiblingsUnfold(data, start, end, h);
      StandForCons(data, h, es[0], Siblings(data, h.End(), end).0, es[1..]);
      assert [es[0]] + es[1..] == es;
    }
  }

  // ---- the fields ---------------------------------------------------------------------------

  /** What has been taken from a TSTInfo so far. */
  datatype Fields = Fields(imprint: Option<Bytes>, time: Option<Bytes>)

  datatype Parsed = NotFound | Malformed | Incomplete | Token(imprint: Bytes, time: Bytes)

  predicate Ascii(b: Bytes) {
    forall x :: x in b ==> x < 128
  }

  function LastOctets(data: Bytes, hs: seq<Header>, imprint: Option<Bytes>): Option<Bytes>
    requires forall h :: h in hs ==> h.End() <= |data|
  {
    if hs == [] then imprint
    else
      var h := hs[0];
      assert h in hs;
      LastOctets(data, hs[1..], if h.tag == OCTET_STRING then Some(Content(data, h)) else imprint)
  }

  lemma {:induction false} SiblingsInBounds(data: Bytes, start: nat, end: nat)
    ensures forall h :: h in Siblings(data, start, end).0 ==> h.End() <= |data|
    decreases if start <= |data| then |data| - start else 0
  {
    if start < end && DerTlv(data, start).Some? {
      SiblingsInBounds(data, DerTlv(data, start).value.End(), end);
    }
  }

  /** One child of the TSTInfo; `None` is a malformed or non-ASCII one. */
  function TakeField(data: Bytes, h: Header, f: Fields): Option<Fields>
    requires h.End() <= |data|
  {
    if h.tag == SEQUENCE && f.imprint.None? then
      var (subs, ok) := Siblings(data, h.content, h.End());
      SiblingsInBounds(data, h.content, h.End());
      if ok then Some(f.(imprint := LastOctets(data, subs, None))) else None
    else if (h.tag == UTC_TIME || h.tag == GENERALIZED_TIME) && f.time.None? then
      if Ascii(Content(data, h)) then Some(f.(time := Some(Content(data, h)))) else None
    else Some(f)
  }

  function TakeFields(data: Bytes, hs: seq<Header>, f: Fields): Option<Fields>
    requires forall h :: h in hs ==> h.End() <= |data|
  {
    if hs == [] then Some(f)
    else
      var f1 :- TakeField(data, hs[0], f);
      TakeFields(data, hs[1..], f1)
  }

  function ParseBody(body: Bytes): Parsed {
    var (hs, ok) := Siblings(body, 0, |body|);
    SiblingsInBounds(body, 0, |body|);
    var f := if ok then TakeFields(body, hs, Fields(None, None)) else None;
    if f.None? then Malformed
    else if f.value.imprint.None? || f.value.time.None? then Incomplete
    else Token(f.value.imprint.value, f.value.time.value)
  }

  function ParseToken(token: Bytes): Parsed {
    var body := Descend(token, 0, |token|);
    if body.None? then NotFound else ParseBody(body.value)
  }

  method ParseTimestampToken(token: Bytes) returns (r: Parsed)
    ensures r == ParseToken(token)
  {
    var found := FindTstInfo(token);
    if found.None? { return NotFound; }
    var body := found.value;
    var items, ok := IterTlv(body, 0, |body|);
    SiblingsInBounds(body, 0, |body|);
    if !ok { return Malformed; }
    var imprint: Option<Bytes>, time: Option<Bytes> := None, None;
    var i := 0;
    while i < |items|
      invariant 0 <= i <= |items|
      invariant TakeFields(body, items, Fields(None, None)) == TakeFields(body, items[i..], Fields(imprint, time))
    {
      var h := items[i];
      assert items[i..][1..] == items[i + 1..];
      if h.tag == SEQUENCE && imprint.None? {
        var subs, inner := IterTlv(body, h.content, h.End());
        SiblingsInBounds(body, h.content, h.End());
        if !inner { return Malformed; }
        imprint := TakeOctets(body, subs);
      } else if (h.tag == UTC_TIME || h.tag == GENERALIZED_TIME) && time.None? {
        if !Ascii(Content(body, h)) { return Malformed; }
        time := Some(Content(body, h));
      }
      i := i + 1;
    }
    if imprint.None? || time.None? { return Incomplete; }
    r := Token(imprint.value, time.value);
  }

  method TakeOctets(data: Bytes, subs: seq<Header>) returns (imprint: Option<Bytes>)
    requires forall h :: h in subs ==> h.End() <= |data|
    ensures imprint == LastOctets(data, subs, None)
  {
    imprint := None;
    var i := 0;
    while i < |subs|
      invariant 0 <= i <= |subs|
      invariant LastOctets(data, subs, None) == LastOctets(data, subs[i..], imprint)
    {
      assert subs[i..][1..] == subs[i + 1..];
      if subs[i].tag == OCTET_STRING {
        imprint := Some(Content(data, subs[i]));
      }
      i := i + 1;
    }
  }

  /** A token with the encapsulation of RFC 5652 is refused, whatever it holds. */
  lemma EncapsulatedTokenIsNotFound(es: seq<Element>)
    requires AllWellFormed(es) && Encapsulates(es)
    ensures ParseToken(EncodeAll(es)) == NotFound
  {
    TokenSearch(es);
    OctetStringIsNotOpened(es, None);
  }
}
