/**
 The written form of a header block (fastwarc-rs/src/warc/header.rs, `write`)
 and when it parses back to the same block.
 */
module HeaderText {
  import opened Wrappers
  import opened ByteStrings
  import opened HeaderScan

  /** A field without its line terminator; an empty key is written as the bare value. */
  function FieldBody(h: Header): (r: bytes) {
    if h.key == [] then h.value else h.key + [COLON, SP] + h.value
  }

  /** The fields, each on its line, and the empty line that ends the block. */
  function FieldsText(hs: seq<Header>): (r: bytes) {
    if hs == [] then CRLF else FieldBody(hs[0]) + CRLF + FieldsText(hs[1..])
  }

  function StatusText(status: Option<bytes>): (r: bytes) {
    if status.Some? && status.value != [] then status.value + CRLF else []
  }

  function Serialize(b: Block): (r: bytes) {
    StatusText(b.status) + FieldsText(b.headers)
  }

  /** What a fresh map gets from parsing `s`, status line expected. */
  function Reparse(s: bytes, quirks: bool): (r: Scanned) {
    Scan(ScanState(EMPTY_BLOCK, true), s, 0, |s|, quirks)
  }

  // ------------------------------------------------------------------
  // Which blocks survive
  // ------------------------------------------------------------------

  /** No line terminator of the mode. */
  predicate NoEol(s: bytes, quirks: bool) {
    if quirks then forall i :: 0 <= i < |s| ==> s[i] != LF
    else forall i :: 0 <= i < |s| - 1 ==> !(s[i] == CR && s[i + 1] == LF)
  }

  predicate SafeStatus(s: bytes, quirks: bool) {
    s != [] && Trimmed(s) && NoEol(s, quirks)
  }

  predicate SafeField(h: Header, quirks: bool) {
    && h.key != [] && Trimmed(h.key) && IndexOf(h.key, COLON).None?
    && Trimmed(h.value)
    && NoEol(FieldBody(h), quirks)
  }

  predicate SafeFields(hs: seq<Header>, quirks: bool) {
    forall i :: 0 <= i < |hs| ==> SafeField(hs[i], quirks)
  }

  /** The blocks that `write` and `parse` carry around unchanged. */
  predicate Writable(b: Block, quirks: bool) {
    b == EMPTY_BLOCK || (b.status.Some? && SafeStatus(b.status.value, quirks) && SafeFields(b.headers, quirks))
  }

  // ------------------------------------------------------------------
  // Lines of the written form
  // ------------------------------------------------------------------

  /** `s` holds `t` from `p` to its end. */
  ghost predicate Holds(s: bytes, p: nat, t: bytes) {
    p + |t| == |s| && forall i :: p <= i < |s| ==> s[i] == t[i - p]
  }

  lemma HoldsAll(s: bytes)
    ensures Holds(s, 0, s)
  {
  }

  lemma HoldsRest(s: bytes, p: nat, a: bytes, t: bytes)
    requires Holds(s, p, a + t)
    ensures Holds(s, p + |a|, t) && Text(s, p, p + |a|) == a
  {
    assert forall i :: p <= i < p + |a| ==> s[i] == (a + t)[i - p];
    assert forall i :: p + |a| <= i < |s| ==> s[i] == (a + t)[i - p];
  }

  /** A line without inner terminator ends at the one behind it. */
  lemma {:induction false} LineEndsAt(s: bytes, p: nat, body: bytes, k: nat, quirks: bool)
    requires k <= |body| && p + |body| + 2 <= |s| && NoEol(body, quirks)
    requires forall i :: 0 <= i < |body| ==> s[p + i] == body[i]
    requires s[p + |body|] == CR && s[p + |body| + 1] == LF
    ensures NextEol(s, p + k, |s|, quirks) == Some(p + |body| + 2)
    decreases |body| - k
  {
    if k < |body| {
      assert s[p + k] == body[k];
      assert k + 1 < |body| ==> s[p + (k + 1)] == body[k + 1];
      LineEndsAt(s, p, body, k + 1, quirks);
    }
  }

  lemma FirstLine(s: bytes, p: nat, body: bytes, rest: bytes, quirks: bool)
    requires Holds(s, p, body + CRLF + rest) && NoEol(body, quirks)
    ensures NextEol(s, p, |s|, quirks) == Some(p + |body| + 2)
    ensures Text(s, p, p + |body| + 2) == body + CRLF
    ensures Holds(s, p + |body| + 2, rest)
  {
    HoldsRest(s, p, body + CRLF, rest);
    var line := Text(s, p, p + |body| + 2);
    assert line == body + CRLF;
    assert forall i :: 0 <= i < |body| ==> s[p + i] == line[i] == body[i];
    assert s[p + |body|] == line[|body|] && s[p + |body| + 1] == line[|body| + 1];
    LineEndsAt(s, p, body, 0, quirks);
  }

  /** Scanning one complete line of the text. */
  lemma ScanFirstLine(st: ScanState, s: bytes, p: nat, body: bytes, rest: bytes, quirks: bool)
    requires Holds(s, p, body + CRLF + rest) && NoEol(body, quirks)
    ensures Holds(s, p + |body| + 2, rest)
    ensures Scan(st, s, p, |s|, quirks) ==
            if EndsBlock(body + CRLF, quirks) then Scanned(st, p + |body| + 2, true)
            else Scan(PushLine(st, body + CRLF), s, p + |body| + 2, |s|, quirks)
  {
    hide PushLine, TrimEnd;
    FirstLine(s, p, body, rest, quirks);
    ScanLine(st, s, p, |s|, quirks, p + |body| + 2);
  }

  /** Only white space in front of the terminator can end a block. */
  lemma TextGoesOn(body: bytes, quirks: bool)
    ensures body != [] && !IsSpace(body[0]) ==> !EndsBlock(body + CRLF, quirks)
    ensures body == [] ==> EndsBlock(body + CRLF, quirks)
  {
    hide TrimEnd;
    TrimEndEmpty(body + CRLF);
    assert body != [] ==> (body + CRLF)[0] == body[0];
  }

  // ------------------------------------------------------------------
  // Writing, then parsing
  // ------------------------------------------------------------------

  lemma CrlfIsSpace()
    ensures AllSpace(CRLF) && AllSpace([SP]) && AllSpace([])
  {
  }

  lemma TrimTerminated(s: bytes)
    requires Trimmed(s)
    ensures Trim(s + CRLF) == s && Trim([SP] + s + CRLF) == s && Trim(s) == s
  {
    CrlfIsSpace();
    TrimMiddle([], s, CRLF);
    assert [] + s + CRLF == s + CRLF;
    TrimMiddle([SP], s, CRLF);
    TrimMiddle([], s, []);
    assert [] + s + [] == s;
  }

  /** A safe field line parses to the field. */
  lemma SafeFieldParses(st: ScanState, h: Header, quirks: bool)
    requires SafeField(h, quirks) && !st.expectStatus
    ensures PushLine(st, FieldBody(h) + CRLF) == st.(block := Block(st.block.status, st.block.headers + [h]))
  {
    var line := FieldBody(h) + CRLF;
    var n := |h.key|;
    assert line == h.key + ([COLON, SP] + h.value + CRLF);
    IndexOfFirst(h.key, COLON);
    IndexOfIs(line, COLON, n);
    assert line[..n] == h.key;
    assert line[n + 1..] == [SP] + h.value + CRLF;
    TrimTerminated(h.key);
    TrimTerminated(h.value);
    assert line[0] == h.key[0];
  }

  lemma IndexOfIs(s: bytes, b: byte, i: nat)
    requires i < |s| && s[i] == b && forall j :: 0 <= j < i ==> s[j] != b
    ensures IndexOf(s, b) == Some(i)
  {
    IndexOfFirst(s, b);
  }

  lemma {:induction false} SafeFieldsScan(st: ScanState, s: bytes, p: nat, hs: seq<Header>, quirks: bool)
    requires !st.expectStatus && SafeFields(hs, quirks) && Holds(s, p, FieldsText(hs))
    ensures Scan(st, s, p, |s|, quirks) ==
            Scanned(st.(block := Block(st.block.status, st.block.headers + hs)), |s|, true)
    decreases |hs|
  {
    hide PushLine, Scan, Holds, SafeField, FieldBody, EndsBlock;
    if hs == [] {
      ScanEmptyLine(st, s, p, quirks);
      assert st.block.headers + hs == st.block.headers;
    } else {
      var body, rest := FieldBody(hs[0]), FieldsText(hs[1..]);
      SafeFieldIsLine(hs[0], quirks);
      ScanFirstLine(st, s, p, body, rest, quirks);
      SafeFieldParses(st, hs[0], quirks);
      SafeFieldsScan(PushLine(st, body + CRLF), s, p + |body| + 2, hs[1..], quirks);
      assert st.block.headers + [hs[0]] + hs[1..] == st.block.headers + hs;
    }
  }

  lemma SafeFieldIsLine(h: Header, quirks: bool)
    requires SafeField(h, quirks)
    ensures NoEol(FieldBody(h), quirks) && !EndsBlock(FieldBody(h) + CRLF, quirks)
  {
    hide TrimEnd;
    TextGoesOn(FieldBody(h), quirks);
  }

  lemma ScanEmptyLine(st: ScanState, s: bytes, p: nat, quirks: bool)
    requires Holds(s, p, CRLF)
    ensures Scan(st, s, p, |s|, quirks) == Scanned(st, |s|, true)
  {
    hide PushLine, Scan, EndsBlock;
    assert [] + CRLF + [] == CRLF;
    assert [] + CRLF == CRLF;
    TextGoesOn([], quirks);
    ScanFirstLine(st, s, p, [], [], quirks);
  }

  /** Parsing what was written gives the block back, and reads exactly what was written. */
  lemma WritableSurvives(b: Block, quirks: bool)
    requires Writable(b, quirks)
    ensures Reparse(Serialize(b), quirks) == Scanned(ScanState(b, b == EMPTY_BLOCK), |Serialize(b)|, true)
  {
    hide PushLine, Scan, FieldsText, EndsBlock, SafeFields;
    var s := Serialize(b);
    var st := ScanState(EMPTY_BLOCK, true);
    if b == EMPTY_BLOCK {
      EmptySerializes();
      ScanEmptyLine(st, s, 0, quirks);
    } else {
      var v := b.status.value;
      assert Holds(s, 0, v + CRLF + FieldsText(b.headers));
      TextGoesOn(v, quirks);
      ScanFirstLine(st, s, 0, v, FieldsText(b.headers), quirks);
      StatusLineParses(st, v);
      SafeFieldsScan(ScanState(Block(b.status, []), false), s, |v| + 2, b.headers, quirks);
      assert [] + b.headers == b.headers;
    }
  }

  lemma EmptySerializes()
    ensures Serialize(EMPTY_BLOCK) == CRLF
  {
    assert [] + CRLF == CRLF;
  }

  lemma StatusLineParses(st: ScanState, v: bytes)
    requires st.expectStatus && Trimmed(v)
    ensures PushLine(st, v + CRLF) == ScanState(Block(Some(v), st.block.headers), false)
  {
    TrimTerminated(v);
  }
}
