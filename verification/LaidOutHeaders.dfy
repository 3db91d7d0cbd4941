/**
 Header blocks as they may be laid out (fastwarc-rs/src/warc/header.rs): white
 space around keys and values, values folded over any number of lines, lines that
 are ignored. Parsing such a text gives the fields that were laid out.
 */
module LaidOutHeaders {
  import opened Wrappers
  import opened ByteStrings
  import opened Readers
  import opened HeaderScan
  import opened HeaderText
  import opened HeaderCache
  import opened HeaderMaps

  /** A line behind a field: more of its value, or nothing at all. */
  datatype Item = Folded(blank: bytes, text: bytes, trail: bytes) | Ignored(line: bytes)

  /** A field, and what stands behind its first line. */
  datatype Layout = Layout(key: bytes, gap: bytes, blank: bytes, value: bytes, trail: bytes, more: seq<Item>)

  function EolOf(quirks: bool): (r: bytes) {
    if quirks then [LF] else CRLF
  }

  function ItemBody(item: Item): (r: bytes) {
    match item
    case Folded(blank, text, trail) => blank + text + trail
    case Ignored(line) => line
  }

  function ItemsText(items: seq<Item>, quirks: bool): (r: bytes) {
    if items == [] then [] else ItemBody(items[0]) + EolOf(quirks) + ItemsText(items[1..], quirks)
  }

  function FieldLine(l: Layout): (r: bytes) {
    l.key + (l.gap + [COLON] + l.blank + l.value + l.trail)
  }

  function LayoutsText(ls: seq<Layout>, quirks: bool): (r: bytes) {
    if ls == [] then []
    else FieldLine(ls[0]) + EolOf(quirks) + ItemsText(ls[0].more, quirks) + LayoutsText(ls[1..], quirks)
  }

  /** A whole block: lines in front of the first field, the fields, and the empty line. */
  function BlockText(front: seq<Item>, ls: seq<Layout>, quirks: bool): (r: bytes) {
    ItemsText(front, quirks) + (LayoutsText(ls, quirks) + EolOf(quirks))
  }

  // ------------------------------------------------------------------
  // What is meant
  // ------------------------------------------------------------------

  /** A value, and behind it the texts of its continuation lines in their order, each behind one blank. */
  function Joined(value: bytes, items: seq<Item>): (r: bytes)
    decreases |items|
  {
    if items == [] then value
    else Joined(if items[0].Folded? then value + [SP] + items[0].text else value, items[1..])
  }

  function Meant(ls: seq<Layout>): (r: seq<Header>) {
    if ls == [] then [] else [Header(ls[0].key, Joined(ls[0].value, ls[0].more))] + Meant(ls[1..])
  }

  /** A continuation line with no field in front makes a field without key, which the next ones continue. */
  function Orphaned(front: seq<Item>): (r: seq<Header>) {
    if front == [] then []
    else if front[0].Folded? then [Header([], Joined(front[0].text, front[1..]))]
    else Orphaned(front[1..])
  }

  predicate GoodItem(item: Item, quirks: bool) {
    && NoEol(ItemBody(item), quirks)
    && match item
       case Folded(blank, text, trail) =>
         && blank != [] && (blank[0] == SP || blank[0] == TAB) && AllSpace(blank) && AllSpace(trail)
         && Trimmed(text) && (quirks ==> text != [])
       case Ignored(line) =>
         && line != [] && line[0] != SP && line[0] != TAB && COLON !in line
         && (quirks ==> !AllSpace(line))
  }

  predicate GoodItems(items: seq<Item>, quirks: bool) {
    forall i :: 0 <= i < |items| ==> GoodItem(items[i], quirks)
  }

  predicate GoodLayout(l: Layout, quirks: bool) {
    && l.key != [] && Trimmed(l.key) && COLON !in l.key && AllSpace(l.gap)
    && AllSpace(l.blank) && Trimmed(l.value) && AllSpace(l.trail)
    && NoEol(FieldLine(l), quirks) && GoodItems(l.more, quirks)
  }

  predicate GoodLayouts(ls: seq<Layout>, quirks: bool) {
    forall i :: 0 <= i < |ls| ==> GoodLayout(ls[i], quirks)
  }

  // ------------------------------------------------------------------
  // Lines
  // ------------------------------------------------------------------

  lemma {:induction false} LineEndsAtLf(s: bytes, p: nat, body: bytes, k: nat)
    requires k <= |body| && p + |body| + 1 <= |s| && NoEol(body, true) && s[p + |body|] == LF
    requires forall i :: 0 <= i < |body| ==> s[p + i] == body[i]
    ensures NextEol(s, p + k, |s|, true) == Some(p + |body| + 1)
    decreases |body| - k
  {
    if k < |body| {
      assert s[p + k] == body[k];
      LineEndsAtLf(s, p, body, k + 1);
    }
  }

  /** Scanning one complete line. */
  lemma ScanOneLine(st: ScanState, s: bytes, p: nat, body: bytes, rest: bytes, quirks: bool)
    requires Holds(s, p, body + EolOf(quirks) + rest) && NoEol(body, quirks)
    ensures var line := body + EolOf(quirks);
            && Holds(s, p + |line|, rest)
            && Scan(st, s, p, |s|, quirks) ==
               if EndsBlock(line, quirks) then Scanned(st, p + |line|, true)
               else Scan(PushLine(st, line), s, p + |line|, |s|, quirks)
  {
    hide PushLine, TrimEnd, Scan;
    if quirks {
      var line := body + [LF];
      HoldsRest(s, p, line, rest);
      assert Text(s, p, p + |line|) == line;
      assert forall i :: 0 <= i < |line| ==> s[p + i] == line[i];
      assert forall i :: 0 <= i < |body| ==> s[p + i] == line[i] == body[i];
      assert s[p + |body|] == line[|body|] == LF;
      LineEndsAtLf(s, p, body, 0);
      ScanLine(st, s, p, |s|, quirks, p + |line|);
    } else {
      ScanFirstLine(st, s, p, body, rest, quirks);
    }
  }

  lemma EolFacts(quirks: bool)
    ensures var eol := EolOf(quirks); AllSpace(eol) && |eol| == SepLen(quirks) && COLON !in eol && eol[|eol| - 1] == LF
  {
  }

  /** A line with anything but white space does not end the block; without, it does in quirks mode, or if it is empty. */
  lemma LineEndsBlock(body: bytes, quirks: bool)
    ensures EndsBlock(body + EolOf(quirks), quirks) <==> if quirks then AllSpace(body) else body == []
  {
    hide TrimEnd;
    var line := body + EolOf(quirks);
    TrimEndEmpty(line);
    assert forall i :: 0 <= i < |body| ==> line[i] == body[i];
  }

  /** A field line adds its field, trimmed, split at the first colon. */
  lemma FieldLineAdds(st: ScanState, l: Layout, quirks: bool)
    requires GoodLayout(l, quirks) && !st.expectStatus
    ensures var line := FieldLine(l) + EolOf(quirks);
            && !EndsBlock(line, quirks)
            && PushLine(st, line) == st.(block := Block(st.block.status, st.block.headers + [Header(l.key, l.value)]))
  {
    hide TrimEnd, Trim, EndsBlock;
    var eol := EolOf(quirks);
    var line := FieldLine(l) + eol;
    var left := l.key + l.gap;
    EolFacts(quirks);
    assert line == left + ([COLON] + (l.blank + l.value + (l.trail + eol)));
    assert line[|left|] == COLON;
    assert forall i :: 0 <= i < |left| ==> line[i] == left[i] && left[i] != COLON;
    IndexOfIs(line, COLON, |left|);
    assert line[..|left|] == left == [] + l.key + l.gap;
    assert line[|left| + 1..] == l.blank + l.value + (l.trail + eol);
    TrimMiddle([], l.key, l.gap);
    TrimMiddle(l.blank, l.value, l.trail + eol);
    assert line[0] == l.key[0];
    LineEndsBlock(FieldLine(l), quirks);
    assert FieldLine(l)[0] == l.key[0];
  }

  /** A continuation line comes behind the value in front of it, or makes a field without key. */
  lemma FoldedLineJoins(st: ScanState, item: Item, hs: seq<Header>, h: Header, quirks: bool)
    requires GoodItem(item, quirks) && item.Folded? && !st.expectStatus
    ensures var line := ItemBody(item) + EolOf(quirks);
            && !EndsBlock(line, quirks)
            && (st.block.headers == hs + [h] ==>
                  PushLine(st, line) ==
                  st.(block := Block(st.block.status, hs + [Header(h.key, h.value + [SP] + item.text)])))
            && (st.block.headers == [] ==>
                  PushLine(st, line) == st.(block := Block(st.block.status, [Header([], item.text)])))
  {
    hide TrimEnd, Trim, EndsBlock;
    var eol, body := EolOf(quirks), ItemBody(item);
    EolFacts(quirks);
    assert body + eol == item.blank + item.text + (item.trail + eol);
    TrimMiddle(item.blank, item.text, item.trail + eol);
    assert (body + eol)[0] == item.blank[0];
    LineEndsBlock(body, quirks);
    if item.text != [] {
      assert body[|item.blank|] == item.text[0];
    }
    if st.block.headers == hs + [h] {
      assert (hs + [h])[|hs| := Header(h.key, h.value + [SP] + item.text)] == hs + [Header(h.key, h.value + [SP] + item.text)];
    }
  }

  /** A line without colon that continues nothing changes nothing. */
  lemma IgnoredLineStays(st: ScanState, item: Item, quirks: bool)
    requires GoodItem(item, quirks) && item.Ignored? && !st.expectStatus
    ensures var line := ItemBody(item) + EolOf(quirks); !EndsBlock(line, quirks) && PushLine(st, line) == st
  {
    hide TrimEnd, Trim, EndsBlock;
    var line := item.line + EolOf(quirks);
    EolFacts(quirks);
    IndexOfFirst(line, COLON);
    assert forall i :: 0 <= i < |item.line| ==> line[i] == item.line[i];
    LineEndsBlock(item.line, quirks);
  }

  lemma {:induction false} ItemsScan(st: ScanState, s: bytes, p: nat, items: seq<Item>, rest: bytes,
                                     hs: seq<Header>, h: Header, quirks: bool)
    requires GoodItems(items, quirks) && Holds(s, p, ItemsText(items, quirks) + rest)
    requires !st.expectStatus && st.block.headers == hs + [h]
    ensures var q := p + |ItemsText(items, quirks)|;
            && Holds(s, q, rest)
            && Scan(st, s, p, |s|, quirks) ==
               Scan(st.(block := Block(st.block.status, hs + [Header(h.key, Joined(h.value, items))])), s, q, |s|, quirks)
    decreases |items|
  {
    hide PushLine, Scan, Holds, EndsBlock, GoodItem, ItemBody;
    if items == [] {
      assert [] + rest == rest;
    } else {
      var body, more := ItemBody(items[0]), ItemsText(items[1..], quirks);
      var line := body + EolOf(quirks);
      assert line + more + rest == line + (more + rest);
      NoEolInItem(items[0], quirks);
      ScanOneLine(st, s, p, body, more + rest, quirks);
      if items[0].Folded? {
        var g := Header(h.key, h.value + [SP] + items[0].text);
        FoldedLineJoins(st, items[0], hs, h, quirks);
        ItemsScan(st.(block := Block(st.block.status, hs + [g])), s, p + |line|, items[1..], rest, hs, g, quirks);
      } else {
        IgnoredLineStays(st, items[0], quirks);
        ItemsScan(st, s, p + |line|, items[1..], rest, hs, h, quirks);
      }
    }
  }

  lemma NoEolInItem(item: Item, quirks: bool)
    requires GoodItem(item, quirks)
    ensures NoEol(ItemBody(item), quirks)
  {
  }

  lemma {:induction false} FrontScan(st: ScanState, s: bytes, p: nat, front: seq<Item>, rest: bytes, quirks: bool)
    requires GoodItems(front, quirks) && Holds(s, p, ItemsText(front, quirks) + rest)
    requires !st.expectStatus && st.block.headers == []
    ensures var q := p + |ItemsText(front, quirks)|;
            && Holds(s, q, rest)
            && Scan(st, s, p, |s|, quirks) ==
               Scan(st.(block := Block(st.block.status, Orphaned(front))), s, q, |s|, quirks)
    decreases |front|
  {
    hide PushLine, Scan, Holds, EndsBlock, GoodItem, ItemBody;
    if front == [] {
      assert [] + rest == rest;
    } else {
      var body, more := ItemBody(front[0]), ItemsText(front[1..], quirks);
      var line := body + EolOf(quirks);
      assert line + more + rest == line + (more + rest);
      NoEolInItem(front[0], quirks);
      ScanOneLine(st, s, p, body, more + rest, quirks);
      if front[0].Folded? {
        var h := Header([], front[0].text);
        FoldedLineJoins(st, front[0], [], h, quirks);
        assert [] + [h] == [h];
        var j := Header(h.key, Joined(h.value, front[1..]));
        assert [] + [j] == [j];
        ItemsScan(st.(block := Block(st.block.status, [h])), s, p + |line|, front[1..], rest, [], h, quirks);
      } else {
        IgnoredLineStays(st, front[0], quirks);
        FrontScan(st, s, p + |line|, front[1..], rest, quirks);
      }
    }
  }

  lemma {:induction false} LayoutsScan(st: ScanState, s: bytes, p: nat, ls: seq<Layout>, behind: bytes, quirks: bool)
    requires GoodLayouts(ls, quirks) && Holds(s, p, LayoutsText(ls, quirks) + EolOf(quirks) + behind) && !st.expectStatus
    ensures Scan(st, s, p, |s|, quirks) ==
            Scanned(st.(block := Block(st.block.status, st.block.headers + Meant(ls))),
                    p + |LayoutsText(ls, quirks)| + |EolOf(quirks)|, true)
    decreases |ls|
  {
    hide PushLine, Scan, Holds, EndsBlock, GoodLayout, FieldLine, ItemsText;
    var eol, hs := EolOf(quirks), st.block.headers;
    if ls == [] {
      assert LayoutsText([], quirks) + eol + behind == [] + eol + behind;
      assert hs + [] == hs;
      ScanOneLine(st, s, p, [], behind, quirks);
      LineEndsBlock([], quirks);
    } else {
      var l := ls[0];
      var items, rest := ItemsText(l.more, quirks), LayoutsText(ls[1..], quirks) + eol + behind;
      var line := FieldLine(l) + eol;
      assert line + items + LayoutsText(ls[1..], quirks) + eol + behind == line + (items + rest);
      LayoutParts(l, quirks);
      ScanOneLine(st, s, p, FieldLine(l), items + rest, quirks);
      FieldLineAdds(st, l, quirks);
      var h := Header(l.key, l.value);
      ItemsScan(PushLine(st, line), s, p + |line|, l.more, rest, hs, h, quirks);
      var g := Header(l.key, Joined(l.value, l.more));
      LayoutsScan(ScanState(Block(st.block.status, hs + [g]), false), s, p + |line| + |items|, ls[1..], behind, quirks);
      assert hs + [g] + Meant(ls[1..]) == hs + ([g] + Meant(ls[1..]));
    }
  }

  lemma LayoutParts(l: Layout, quirks: bool)
    requires GoodLayout(l, quirks)
    ensures NoEol(FieldLine(l), quirks) && GoodItems(l.more, quirks)
  {
  }

  // ------------------------------------------------------------------
  // The laws
  // ------------------------------------------------------------------

  /** Whatever the layout, the block parses to the fields that are meant, and is read to its end and no further. */
  lemma LaidOutParses(front: seq<Item>, ls: seq<Layout>, behind: bytes, status: Option<bytes>, quirks: bool)
    requires GoodItems(front, quirks) && GoodLayouts(ls, quirks)
    ensures var s := BlockText(front, ls, quirks) + behind;
            Scan(ScanState(Block(status, []), false), s, 0, |s|, quirks) ==
            Scanned(ScanState(Block(status, Orphaned(front) + Meant(ls)), false), |BlockText(front, ls, quirks)|, true)
  {
    hide Scan, GoodItem, GoodLayout, ItemsText, LayoutsText;
    var s, rest := BlockText(front, ls, quirks) + behind, LayoutsText(ls, quirks) + EolOf(quirks) + behind;
    assert s == ItemsText(front, quirks) + rest;
    HoldsAll(s);
    FrontScan(ScanState(Block(status, []), false), s, 0, front, rest, quirks);
    LayoutsScan(ScanState(Block(status, Orphaned(front)), false), s, |ItemsText(front, quirks)|, ls, behind, quirks);
  }

  /** The same behind a status line. */
  lemma StatusAndBlockParse(lead: bytes, status: bytes, trail: bytes, front: seq<Item>, ls: seq<Layout>,
                            behind: bytes, quirks: bool)
    requires AllSpace(lead) && Trimmed(status) && status != [] && AllSpace(trail) && NoEol(lead + status + trail, quirks)
    requires GoodItems(front, quirks) && GoodLayouts(ls, quirks)
    ensures var text := lead + status + trail + EolOf(quirks) + BlockText(front, ls, quirks);
            Scan(ScanState(EMPTY_BLOCK, true), text + behind, 0, |text + behind|, quirks) ==
            Scanned(ScanState(Block(Some(status), Orphaned(front) + Meant(ls)), false), |text|, true)
  {
    hide Scan, GoodItem, GoodLayout, ItemsText, LayoutsText, BlockText, EndsBlock, Trim, IsContinuation, Field, Fold;
    var body, rest := lead + status + trail, BlockText(front, ls, quirks) + behind;
    var s := body + EolOf(quirks) + BlockText(front, ls, quirks) + behind;
    var k := |body + EolOf(quirks)|;
    assert s == body + EolOf(quirks) + rest;
    HoldsAll(s);
    ScanOneLine(ScanState(EMPTY_BLOCK, true), s, 0, body, rest, quirks);
    LineEndsBlock(body, quirks);
    assert body[|lead|] == status[0];
    EolFacts(quirks);
    TrimMiddle(lead, status, trail + EolOf(quirks));
    assert body + EolOf(quirks) == lead + status + (trail + EolOf(quirks));
    LaidOutParses(front, ls, behind, Some(status), quirks);
    assert SameText(rest, 0, |rest|, s, k);
    ScanTransfer(ScanState(Block(Some(status), []), false), rest, 0, |rest|, s, k, |s|, quirks);
  }

  /** The field on one line. */
  function Unfolded(l: Layout): (r: Layout) {
    Layout(l.key, l.gap, l.blank, Joined(l.value, l.more), l.trail, [])
  }

  predicate NoneEmpty(items: seq<Item>) {
    forall i :: 0 <= i < |items| ==> items[i].Folded? ==> items[i].text != []
  }

  lemma {:induction false} JoinedIsTrimmed(value: bytes, items: seq<Item>, quirks: bool)
    requires value != [] && Trimmed(value) && GoodItems(items, quirks) && NoneEmpty(items)
    ensures Joined(value, items) != [] && Trimmed(Joined(value, items))
    decreases |items|
  {
    if items != [] {
      JoinedIsTrimmed(if items[0].Folded? then value + [SP] + items[0].text else value, items[1..], quirks);
    }
  }

  /** A value that is broken at a blank, any number of times, parses as it does on one line. */
  lemma UnfoldedParsesAlike(l: Layout, behind: bytes, status: Option<bytes>, quirks: bool)
    requires GoodLayout(l, quirks) && l.value != [] && NoneEmpty(l.more) && NoEol(FieldLine(Unfolded(l)), quirks)
    ensures var st := ScanState(Block(status, []), false);
            var a, b := BlockText([], [l], quirks) + behind, BlockText([], [Unfolded(l)], quirks) + behind;
            Scan(st, a, 0, |a|, quirks).state == Scan(st, b, 0, |b|, quirks).state
  {
    hide Scan, BlockText, Joined;
    JoinedIsTrimmed(l.value, l.more, quirks);
    LaidOutParses([], [l], behind, status, quirks);
    LaidOutParses([], [Unfolded(l)], behind, status, quirks);
    JoinedAlone(Joined(l.value, l.more));
    assert Meant([l]) == [Header(l.key, Joined(l.value, l.more))] == Meant([Unfolded(l)]);
  }

  lemma JoinedAlone(value: bytes)
    ensures Joined(value, []) == value
  {
  }

  const VIA_ITEM: Item := Folded([SP], Ascii("two"), [])
  const VIA: Layout := Layout(Ascii("Via"), [], [SP], Ascii("one"), [], [VIA_ITEM])

  lemma ViaIsGood(quirks: bool)
    ensures GoodLayouts([VIA], quirks)
  {
  }

  lemma ViaText(quirks: bool)
    ensures BlockText([], [VIA], quirks) ==
            Ascii("Via: one") + EolOf(quirks) + Ascii(" two") + EolOf(quirks) + EolOf(quirks)
  {
    assert FieldLine(VIA) == Ascii("Via: one");
    assert ItemBody(VIA_ITEM) == Ascii(" two");
    var eol := EolOf(quirks);
    assert ItemsText([VIA_ITEM], quirks) == Ascii(" two") + eol;
    assert LayoutsText([VIA], quirks) == Ascii("Via: one") + eol + (Ascii(" two") + eol);
    assert ItemsText([], quirks) == [];
  }

  lemma ViaMeans()
    ensures Orphaned([]) + Meant([VIA]) == [Header(Ascii("Via"), Ascii("one two"))]
  {
    assert Ascii("one") + [SP] + Ascii("two") == Ascii("one two");
    assert Joined(Ascii("one"), [VIA_ITEM]) == Ascii("one two");
  }

  lemma WithoutRest(s: bytes)
    ensures s + [] == s
  {
  }

  /** The fold of an HTTP header over two lines. */
  lemma ViaOneTwo(quirks: bool)
    ensures var eol := EolOf(quirks);
            var s := Ascii("HTTP/1.1 200 OK") + eol + (Ascii("Via: one") + eol + Ascii(" two") + eol + eol);
            Scan(ScanState(EMPTY_BLOCK, true), s, 0, |s|, quirks).state.block ==
            Block(Some(Ascii("HTTP/1.1 200 OK")), [Header(Ascii("Via"), Ascii("one two"))])
  {
    hide *;
    var status := Ascii("HTTP/1.1 200 OK");
    StatusIsGood(quirks);
    ViaIsGood(quirks);
    ViaText(quirks);
    ViaMeans();
    StatusAndBlockParse([], status, [], [], [VIA], [], quirks);
    assert [] + status + [] == status;
    WithoutRest(status + EolOf(quirks) + BlockText([], [VIA], quirks));
  }

  lemma StatusIsGood(quirks: bool)
    ensures var status := Ascii("HTTP/1.1 200 OK");
            Trimmed(status) && status != [] && NoEol([] + status + [], quirks) && AllSpace([]) && GoodItems([], quirks)
  {
  }

  // ------------------------------------------------------------------
  // The layout that is written
  // ------------------------------------------------------------------

  /** Each field on one line, with a single blank behind the colon. */
  function Plainly(hs: seq<Header>): (r: seq<Layout>) {
    if hs == [] then [] else [Layout(hs[0].key, [], Ascii(" "), hs[0].value, [], [])] + Plainly(hs[1..])
  }

  lemma PlainLine(h: Header)
    requires h.key != []
    ensures FieldLine(Layout(h.key, [], Ascii(" "), h.value, [], [])) == FieldBody(h)
  {
    assert Ascii(" ") == [SP];
  }

  /** The written fields are the block with that layout. */
  lemma {:induction false} WrittenPlainly(hs: seq<Header>)
    requires forall i :: 0 <= i < |hs| ==> hs[i].key != []
    ensures FieldsText(hs) == BlockText([], Plainly(hs), false)
    decreases |hs|
  {
    hide FieldLine, FieldBody, Ascii;
    assert ItemsText([], false) == [];
    if hs != [] {
      var l, more := Plainly(hs)[0], Plainly(hs[1..]);
      WrittenPlainly(hs[1..]);
      PlainLine(hs[0]);
      assert Plainly(hs)[1..] == more;
      assert LayoutsText(Plainly(hs), false) == FieldLine(l) + CRLF + [] + LayoutsText(more, false);
    }
  }

  lemma HostIsWritten()
    ensures FieldsText([Header(Ascii("Host"), Ascii("x"))]) == Ascii("Host: x") + CRLF + CRLF
  {
    var h := Header(Ascii("Host"), Ascii("x"));
    assert FieldBody(h) == Ascii("Host: x");
    assert [h][1..] == [] && FieldsText([]) == CRLF;
  }

  /** An HTTP header block as it is written. */
  lemma HeaderBlockIsWritten()
    ensures Serialize(Block(Some(Ascii("HTTP/1.1 200 OK")), [Header(Ascii("Host"), Ascii("x"))])) ==
            Ascii("HTTP/1.1 200 OK") + CRLF + (Ascii("Host: x") + CRLF + CRLF)
  {
    hide FieldsText;
    HostIsWritten();
  }

  // ------------------------------------------------------------------
  // The parser
  // ------------------------------------------------------------------

  /** Parses a laid out block, with its status line and whatever stands behind it, through any buffers. */
  method ParseLaidOut(status: bytes, front: seq<Item>, ls: seq<Layout>, behind: bytes, maxHeaderLen: nat, quirks: bool)
    returns (r: Result<nat, IoError>, headers: HeaderMap, stream: TrackedReader)
    requires Trimmed(status) && status != [] && NoEol(status, quirks) && GoodItems(front, quirks) && GoodLayouts(ls, quirks)
    requires |HeadText(status, front, ls, quirks) + behind| <= I64_MAX
    ensures var n := |HeadText(status, front, ls, quirks)|;
            && (2 * n <= maxHeaderLen ==> r.Ok?)
            && (r.Ok? ==>
                  && r.value == n == stream.pos && headers.Valid() && !headers.dirty
                  && headers.Content() == Block(Some(status), Orphaned(front) + Meant(ls)))
  {
    hide Scan, GoodItem, GoodLayout, HeadText, Orphaned, Meant, ScanBehind, LeftBroken, TrackedReader.Valid, Trimmed, NoEol;
    var text := HeadText(status, front, ls, quirks) + behind;
    stream := new TrackedReader(text);
    var reader := new LimitedReader(stream, None);
    headers := new HeaderMap(Latin1);
    ghost var op := headers.ParseOp(reader, true, quirks);
    TextMeans(status, front, ls, behind, op);
    r := headers.ParseWithOpts(reader, true, maxHeaderLen, quirks);
  }

  function HeadText(status: bytes, front: seq<Item>, ls: seq<Layout>, quirks: bool): (r: bytes) {
    status + EolOf(quirks) + BlockText(front, ls, quirks)
  }

  lemma TextMeans(status: bytes, front: seq<Item>, ls: seq<Layout>, behind: bytes, op: HeaderOp)
    requires op.Parse? && op.start == 0 && op.end == |op.s| && op.hasStatusLine
    requires Trimmed(status) && status != [] && NoEol(status, op.quirks)
    requires GoodItems(front, op.quirks) && GoodLayouts(ls, op.quirks)
    requires op.s == HeadText(status, front, ls, op.quirks) + behind
    ensures TaskOf(EMPTY_MAP, op).goal.pos == |HeadText(status, front, ls, op.quirks)| && TaskOf(EMPTY_MAP, op).seed == []
    ensures ApplyOp(EMPTY_MAP, op).block == Block(Some(status), Orphaned(front) + Meant(ls))
    ensures !ApplyOp(EMPTY_MAP, op).dirty
  {
    hide Scan, GoodItem, GoodLayout, BlockText, Orphaned, Meant;
    assert [] + status + [] == status;
    StatusAndBlockParse([], status, [], front, ls, behind, op.quirks);
  }
}
