/**
 The other half of the print-and-parse law: a block that survives writing and
 parsing is writable in the sense of `HeaderText`, in strict and in quirks mode.
 What parsing yields is free of the mode's line terminator, so every written
 field is one line; each line adds at most one field, so none may be dropped,
 folded or cut short.
 */
module HeaderTextExact {
  import opened Wrappers
  import opened ByteStrings
  import opened HeaderScan
  import opened HeaderText

  // ------------------------------------------------------------------
  // Parsed text is free of line terminators
  // ------------------------------------------------------------------

  /** A terminator stands at most at the very end. */
  predicate EolAtEndOnly(s: bytes, quirks: bool) {
    if quirks then forall i :: 0 <= i < |s| - 1 ==> s[i] != LF
    else forall i :: 0 <= i < |s| - 2 ==> !(s[i] == CR && s[i + 1] == LF)
  }

  predicate Plain(hs: seq<Header>, quirks: bool) {
    forall i :: 0 <= i < |hs| ==> NoEol(hs[i].key, quirks) && NoEol(hs[i].value, quirks)
  }

  lemma TrimNoEol(s: bytes, quirks: bool)
    requires EolAtEndOnly(s, quirks)
    ensures NoEol(Trim(s), quirks)
  {
    hide Trim;
    var m := Trim(s);
    var a, b := TrimSplit(s);
    assert forall i :: 0 <= i < |m| ==> m[i] == s[|a| + i];
  }

  lemma {:induction false} NextEolIsFirst(s: bytes, p: nat, end: nat, i: nat, quirks: bool)
    requires p <= i && end <= |s|
    requires match NextEol(s, p, end, quirks)
             case Some(e) => i + SepLen(quirks) < e
             case None => i + SepLen(quirks) <= end
    ensures !EolAt(s, i, quirks)
    decreases i - p
  {
    if p < i {
      NextEolIsFirst(s, p + 1, end, i, quirks);
    }
  }

  /** Every line the scanner cuts off has a terminator at its end only. */
  lemma LineIsPlain(s: bytes, p: nat, end: nat, quirks: bool)
    requires p < end <= |s|
    ensures var e := NextEol(s, p, end, quirks);
            EolAtEndOnly(Text(s, p, if e.Some? then e.value else end), quirks)
  {
    hide NextEol;
    var e := NextEol(s, p, end, quirks);
    var q := if e.Some? then e.value else end;
    var line := Text(s, p, q);
    if quirks {
      forall i | 0 <= i < |line| - 1
        ensures line[i] != LF
      {
        NextEolIsFirst(s, p, end, p + i, quirks);
      }
    } else {
      forall i | 0 <= i < |line| - 2
        ensures !(line[i] == CR && line[i + 1] == LF)
      {
        NextEolIsFirst(s, p, end, p + i, quirks);
      }
    }
  }

  lemma PushLinePlain(st: ScanState, line: bytes, quirks: bool)
    requires EolAtEndOnly(line, quirks) && Plain(st.block.headers, quirks)
    ensures Plain(PushLine(st, line).block.headers, quirks)
    ensures st.expectStatus ==> PushLine(st, line).block.status == Some(Trim(line)) && NoEol(Trim(line), quirks)
  {
    hide Trim;
    TrimNoEol(line, quirks);
    var c := IndexOf(line, COLON);
    if c.Some? {
      assert EolAtEndOnly(line[..c.value], quirks);
      assert EolAtEndOnly(line[c.value + 1..], quirks);
      TrimNoEol(line[..c.value], quirks);
      TrimNoEol(line[c.value + 1..], quirks);
    }
    var hs := st.block.headers;
    if hs != [] {
      var v := hs[|hs| - 1].value;
      assert NoEol(v + [SP] + Trim(line), quirks);
    }
  }

  lemma PushLineStatus(st: ScanState, line: bytes)
    requires !st.expectStatus
    ensures PushLine(st, line).block.status == st.block.status && !PushLine(st, line).expectStatus
  {
  }

  lemma {:induction false} ScanPlain(st: ScanState, s: bytes, p: nat, end: nat, quirks: bool)
    requires (p < end ==> end <= |s|) && Plain(st.block.headers, quirks)
    ensures Plain(Scan(st, s, p, end, quirks).state.block.headers, quirks)
    ensures !st.expectStatus ==> Scan(st, s, p, end, quirks).state.block.status == st.block.status
    ensures st.expectStatus ==> var status := Scan(st, s, p, end, quirks).state.block.status;
                                status == st.block.status || (status.Some? && NoEol(status.value, quirks))
    decreases end - p
  {
    hide PushLine, NextEol, Trim;
    if p < end {
      LineIsPlain(s, p, end, quirks);
      var e := NextEol(s, p, end, quirks);
      var q := if e.Some? then e.value else end;
      var line := Text(s, p, q);
      PushLinePlain(st, line, quirks);
      if !st.expectStatus {
        PushLineStatus(st, line);
      } else {
        StatusLineIsTaken(st, line);
      }
      if e.Some? {
        ScanPlain(PushLine(st, line), s, q, end, quirks);
      }
    }
  }

  lemma StatusLineIsTaken(st: ScanState, line: bytes)
    requires st.expectStatus
    ensures !PushLine(st, line).expectStatus && PushLine(st, line).block.headers == st.block.headers
  {
  }

  lemma PlainFieldIsLine(h: Header, quirks: bool)
    requires NoEol(h.key, quirks) && NoEol(h.value, quirks)
    ensures NoEol(FieldBody(h), quirks)
  {
  }

  // ------------------------------------------------------------------
  // Every line adds at most one field
  // ------------------------------------------------------------------

  lemma PushLineAdds(st: ScanState, line: bytes)
    requires !st.expectStatus
    ensures var before, after := st.block.headers, PushLine(st, line).block.headers;
            && |before| <= |after| <= |before| + 1
            && (before != [] && |after| == |before| + 1 ==> after[..|before|] == before)
  {
    hide Trim;
  }

  /** `n` fields written take at least as many lines as they add fields. */
  lemma {:induction false} FieldsCount(st: ScanState, s: bytes, p: nat, hs: seq<Header>, quirks: bool)
    requires !st.expectStatus && Plain(hs, quirks) && Holds(s, p, FieldsText(hs))
    ensures var before, after := st.block.headers, Scan(st, s, p, |s|, quirks).state.block.headers;
            && |after| <= |before| + |hs|
            && (before != [] && |after| == |before| + |hs| ==> after[..|before|] == before)
    decreases |hs|
  {
    hide PushLine, Scan, Holds, FieldBody, EndsBlock;
    if hs == [] {
      ScanEmptyLine(st, s, p, quirks);
    } else {
      var body, rest := FieldBody(hs[0]), FieldsText(hs[1..]);
      PlainFieldIsLine(hs[0], quirks);
      ScanFirstLine(st, s, p, body, rest, quirks);
      if !EndsBlock(body + CRLF, quirks) {
        var next := PushLine(st, body + CRLF);
        PushLineStatus(st, body + CRLF);
        PushLineAdds(st, body + CRLF);
        FieldsCount(next, s, p + |body| + 2, hs[1..], quirks);
        PrefixOfPrefix(Scan(next, s, p + |body| + 2, |s|, quirks).state.block.headers, |next.block.headers|, |st.block.headers|);
      }
    }
  }

  lemma PrefixOfPrefix(s: seq<Header>, n: nat, m: nat)
    ensures m <= n <= |s| ==> s[..n][..m] == s[..m]
  {
  }

  /** The only line that adds a given field is its own written form, and the field is safe. */
  lemma PushedFieldIsSafe(st: ScanState, h: Header, quirks: bool)
    requires !st.expectStatus && NoEol(FieldBody(h), quirks) && FieldBody(h) != []
    requires PushLine(st, FieldBody(h) + CRLF).block.headers == st.block.headers + [h]
    ensures SafeField(h, quirks)
  {
    hide Trim;
    var body := FieldBody(h);
    var line := body + CRLF;
    var before, after := st.block.headers, PushLine(st, line).block.headers;
    assert after[|before|] == h;
    ContinuationShrinks(body);
    var c := IndexOf(line, COLON).value;
    FieldKeepsColon(line, c, h, quirks);
  }

  /** A fold into an empty list would add a field, but one without the leading white space. */
  lemma ContinuationShrinks(body: bytes)
    requires body != []
    ensures IsContinuation(body + CRLF) ==> |Trim(body + CRLF)| < |body|
  {
    hide Trim;
    if IsContinuation(body + CRLF) {
      TrimTerminatedShrinks(body[..1], body[1..]);
      assert body[..1] + (body[1..] + CRLF) == body + CRLF;
    }
  }

  lemma ValueShrinks(body: bytes, c: nat)
    requires c < |body|
    ensures |Trim((body + CRLF)[c + 1..])| <= |body| - c - 1
  {
    hide Trim;
    assert (body + CRLF)[c + 1..] == [] + (body[c + 1..] + CRLF);
    TrimTerminatedShrinks([], body[c + 1..]);
  }

  lemma TrimTerminatedShrinks(a: bytes, s: bytes)
    requires AllSpace(a)
    ensures |Trim(a + (s + CRLF))| <= |s|
  {
    var t := a + (s + CRLF);
    var x, y := TrimSplit(t);
    var n := |t| - |y|;
    assert n > |a| + |s| ==> IsSpace(t[n - 1]);
    assert |x| < |a| && Trim(t) != [] ==> t[|x|] == a[|x|];
  }

  lemma FieldKeepsColon(line: bytes, c: nat, h: Header, quirks: bool)
    requires line == FieldBody(h) + CRLF && IndexOf(line, COLON) == Some(c)
    requires h == Header(Trim(line[..c]), Trim(line[c + 1..])) && NoEol(FieldBody(h), quirks)
    ensures SafeField(h, quirks)
  {
    hide Trim;
    IndexOfFirst(line, COLON);
    var body := FieldBody(h);
    var a, b := TrimSplit(line[..c]);
    var x, y := TrimSplit(line[c + 1..]);
    assert c < |body|;
    ValueShrinks(body, c);
    assert line[|h.key|] == COLON;
    assert c == |h.key|;
    assert line[..c] == h.key;
    IndexOfFirst(h.key, COLON);
  }

  lemma {:induction false} FieldsExact(st: ScanState, s: bytes, p: nat, hs: seq<Header>, quirks: bool)
    requires !st.expectStatus && Plain(hs, quirks) && Holds(s, p, FieldsText(hs))
    requires Scan(st, s, p, |s|, quirks).state.block.headers == st.block.headers + hs
    ensures SafeFields(hs, quirks)
    decreases |hs|
  {
    hide PushLine, Scan, Holds, FieldBody, SafeField, EndsBlock;
    if hs != [] {
      var before, body, rest := st.block.headers, FieldBody(hs[0]), FieldsText(hs[1..]);
      var goal := before + hs;
      PlainFieldIsLine(hs[0], quirks);
      ScanFirstLine(st, s, p, body, rest, quirks);
      assert !EndsBlock(body + CRLF, quirks);
      TextGoesOn(body, quirks);
      var next := PushLine(st, body + CRLF);
      PushLineStatus(st, body + CRLF);
      PushLineAdds(st, body + CRLF);
      FieldsCount(next, s, p + |body| + 2, hs[1..], quirks);
      assert next.block.headers == goal[..|before| + 1] == before + [hs[0]];
      assert goal == next.block.headers + hs[1..];
      PushedFieldIsSafe(st, hs[0], quirks);
      FieldsExact(next, s, p + |body| + 2, hs[1..], quirks);
    }
  }

  /** Writing and parsing gives the same block exactly for the writable ones. */
  lemma SurvivesIffWritable(b: Block, quirks: bool)
    ensures Reparse(Serialize(b), quirks).state.block == b <==> Writable(b, quirks)
  {
    hide *;
    if Writable(b, quirks) {
      WritableSurvives(b, quirks);
    } else if Reparse(Serialize(b), quirks).state.block == b {
      SurvivorIsWritable(b, quirks);
    }
  }

  lemma SurvivorIsWritable(b: Block, quirks: bool)
    requires Reparse(Serialize(b), quirks).state.block == b
    ensures Writable(b, quirks)
  {
    hide PushLine, Scan, FieldsText, SafeField, EndsBlock;
    var s := Serialize(b);
    var st := ScanState(EMPTY_BLOCK, true);
    ScanPlain(st, s, 0, |s|, quirks);
    if b.status.None? || b.status.value == [] {
      if b.headers == [] {
        EmptyTextHasNoStatus(b, quirks);
      } else {
        NoStatusLosesField(b, quirks);
      }
    } else {
      var v := b.status.value;
      assert Holds(s, 0, v + CRLF + FieldsText(b.headers));
      ScanFirstLine(st, s, 0, v, FieldsText(b.headers), quirks);
      var next := PushLine(st, v + CRLF);
      StatusLineIsTaken(st, v + CRLF);
      assert next.block.headers + b.headers == b.headers;
      StatusLineTrims(st, v);
      ScanPlain(next, s, |v| + 2, |s|, quirks);
      FieldsExact(next, s, |v| + 2, b.headers, quirks);
    }
  }

  lemma StatusLineTrims(st: ScanState, v: bytes)
    requires st.expectStatus
    ensures PushLine(st, v + CRLF).block.status == Some(Trim(v + CRLF)) && Trimmed(Trim(v + CRLF))
  {
    var a, c := TrimSplit(v + CRLF);
  }

  lemma EmptyTextHasNoStatus(b: Block, quirks: bool)
    requires b.headers == [] && (b.status.None? || b.status.value == [])
    ensures Reparse(Serialize(b), quirks).state.block == EMPTY_BLOCK
  {
    hide PushLine, Scan;
    assert Serialize(b) == CRLF;
    ScanEmptyLine(ScanState(EMPTY_BLOCK, true), Serialize(b), 0, quirks);
  }

  /** Without a status line the first field is taken for one. */
  lemma NoStatusLosesField(b: Block, quirks: bool)
    requires b.headers != [] && Plain(b.headers, quirks) && (b.status.None? || b.status.value == [])
    ensures |Reparse(Serialize(b), quirks).state.block.headers| < |b.headers|
  {
    hide PushLine, Scan, FieldBody, Holds, EndsBlock;
    var s := Serialize(b);
    var st := ScanState(EMPTY_BLOCK, true);
    var body, rest := FieldBody(b.headers[0]), FieldsText(b.headers[1..]);
    assert s == body + CRLF + rest;
    assert Holds(s, 0, s) by { HoldsAll(s); }
    PlainFieldIsLine(b.headers[0], quirks);
    ScanFirstLine(st, s, 0, body, rest, quirks);
    if !EndsBlock(body + CRLF, quirks) {
      StatusLineIsTaken(st, body + CRLF);
      FieldsCount(PushLine(st, body + CRLF), s, |body| + 2, b.headers[1..], quirks);
    }
  }
}
