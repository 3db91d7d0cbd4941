/**
 Header maps that are edited and written (fastwarc-rs/src/warc/header.rs): what
 sanitising keys and values guarantees, and that any run of edits gives a map
 whose written form parses back to it.
 */
module EditedHeaders {
  import opened Wrappers
  import opened ByteStrings
  import opened HeaderScan
  import opened HeaderEdits
  import opened HeaderText
  import opened HeaderCache

  lemma {:induction false} ScrubJoins(a: bytes, b: bytes, isKey: bool)
    ensures Scrub(a + b, isKey) == Scrub(a, isKey) + Scrub(b, isKey)
  {
    if a == [] {
      assert a + b == b;
    } else {
      assert (a + b)[1..] == a[1..] + b;
      ScrubJoins(a[1..], b, isKey);
    }
  }

  lemma {:induction false} ScrubCleans(s: bytes, isKey: bool)
    ensures forall i :: 0 <= i < |Scrub(s, isKey)| ==>
              var b := Scrub(s, isKey)[i]; b != CR && b != LF && (isKey ==> b != COLON)
  {
    if s != [] {
      ScrubCleans(s[1..], isKey);
    }
  }

  lemma ScrubOne(b: byte, isKey: bool)
    requires !IsSpace(b) && (isKey ==> b != COLON)
    ensures Scrub([b], isKey) == [b]
  {
    assert [b][1..] == [];
  }

  /** What becomes of a byte, wherever it stands: CR goes, LF becomes a blank, and colons go from keys. */
  lemma ScrubByByte(a: bytes, b: byte, c: bytes, isKey: bool)
    ensures Scrub(a + [b] + c, isKey) ==
            Scrub(a, isKey)
            + (if b == 13 then [] else if b == 10 then Ascii(" ") else if b == 58 && isKey then [] else [b])
            + Scrub(c, isKey)
  {
    ScrubJoins(a + [b], c, isKey);
    ScrubJoins(a, [b], isKey);
    assert [b][1..] == [];
    assert Ascii(" ") == [SP] && [SP] + [] == [SP] && [b] + [] == [b];
  }

  /** A trimmed value stays trimmed when it is scrubbed. */
  lemma ScrubKeepsTrimmed(s: bytes)
    requires Trimmed(s)
    ensures Trimmed(Scrub(s, false)) && (s != [] ==> Scrub(s, false) != [])
  {
    hide Scrub;
    if s == [] {
      ScrubNothing();
    } else {
      var n := |s| - 1;
      ScrubOne(s[0], false);
      ScrubOne(s[n], false);
      ScrubJoins([s[0]], s[1..], false);
      ScrubJoins(s[..n], [s[n]], false);
      assert s == [s[0]] + s[1..] && s == s[..n] + [s[n]];
    }
  }

  lemma ScrubNothing()
    ensures Scrub([], false) == []
  {
  }

  /** The first byte of a key that sanitising does not remove. */
  function FirstKept(s: bytes): (r: Option<byte>) {
    if s == [] then None
    else if s[0] == CR || s[0] == COLON then FirstKept(s[1..])
    else Some(s[0])
  }

  /** The last byte of a key that sanitising does not remove. */
  function LastKept(s: bytes): (r: Option<byte>) {
    if s == [] then None
    else if s[|s| - 1] == CR || s[|s| - 1] == COLON then LastKept(s[..|s| - 1])
    else Some(s[|s| - 1])
  }

  /**
   A trimmed key holds more than colons and CRs, and no white space comes to its
   ends when these are removed.
   */
  predicate Cleanable(key: bytes) {
    var first, last := FirstKept(Trim(key)), LastKept(Trim(key));
    first.Some? && last.Some? && !IsSpace(first.value) && !IsSpace(last.value)
  }

  lemma {:induction false} ScrubFirst(s: bytes)
    ensures FirstKept(s).None? <==> Scrub(s, true) == []
    ensures FirstKept(s).Some? ==> IsSpace(Scrub(s, true)[0]) == IsSpace(FirstKept(s).value)
  {
    if s != [] && (s[0] == CR || s[0] == COLON) {
      ScrubFirst(s[1..]);
    }
  }

  lemma {:induction false} ScrubLast(s: bytes)
    ensures LastKept(s).None? <==> Scrub(s, true) == []
    ensures LastKept(s).Some? ==>
              var t := Scrub(s, true); t != [] && IsSpace(t[|t| - 1]) == IsSpace(LastKept(s).value)
  {
    if s != [] {
      var n := |s| - 1;
      ScrubJoins(s[..n], [s[n]], true);
      assert s == s[..n] + [s[n]] && [s[n]][1..] == [];
      ScrubLast(s[..n]);
    }
  }

  /** Sanitising gives a key without white space at its ends exactly for those keys. */
  lemma CleanableIff(key: bytes)
    ensures Cleanable(key) <==> Sanitize(key, true) != [] && Trimmed(Sanitize(key, true))
  {
    hide Scrub, Trim, FirstKept, LastKept;
    ScrubFirst(Trim(key));
    ScrubLast(Trim(key));
  }

  /**
   Whatever the value, the field an edit stores can be written and parsed back
   exactly when the key is one of those.
   */
  lemma EditedFieldIsSafeIff(key: bytes, value: bytes, quirks: bool)
    ensures SafeField(SanitizedField(key, value), quirks) <==> Cleanable(key)
  {
    hide Scrub, TrimEnd, TrimStart, Cleanable;
    CleanableIff(key);
    var h := SanitizedField(key, value);
    var a, b := TrimSplit(value);
    ScrubKeepsTrimmed(Trim(value));
    ScrubCleans(Trim(key), true);
    ScrubCleans(Trim(value), false);
    IndexOfFirst(h.key, COLON);
    var body := FieldBody(h);
    assert forall i :: 0 <= i < |body| ==> body[i] != CR;
  }

  /** Keys that begin or end with a colon and white space are the ones that go wrong. */
  lemma ColonThenBlank()
    ensures Sanitize([COLON, SP, 97], true) == [SP, 97] && !Cleanable([COLON, SP, 97])
  {
    var key: bytes := [COLON, SP, 97];
    TrimMiddle([], key, []);
    assert [] + key + [] == key;
    assert key[1..] == [SP, 97] && [SP, 97 as byte][1..] == [97];
    ScrubOne(97, true);
    assert Scrub([SP, 97], true) == [SP] + Scrub([97], true);
    assert Scrub(key, true) == Scrub([SP, 97], true);
    assert !Trimmed([SP, 97 as byte]);
    CleanableIff(key);
  }

  // ------------------------------------------------------------------
  // Runs of edits
  // ------------------------------------------------------------------

  /** An edit that leaves a block that can be written and parsed back. */
  predicate GoodEdit(op: HeaderOp) {
    match op
    case Set(key, _) => Cleanable(key)
    case Append(key, _) => Cleanable(key)
    case Remove(_) => true
    case SetStatus(status) => Cleanable(status)
    case Clear => false
    case Parse(_, _, _, _, _) => false
    case BrokenParse(_, _, _, _, _) => false
  }

  lemma {:induction false} OverwriteSafe(hs: seq<Header>, keyLower: bytes, h: Header, found: bool, quirks: bool)
    requires SafeFields(hs, quirks) && SafeField(h, quirks)
    ensures SafeFields(Overwrite(hs, keyLower, h, found).0, quirks)
  {
    hide SafeField;
    if hs != [] {
      OverwriteSafe(hs[1..], keyLower, h, found, quirks);
      OverwriteSafe(hs[1..], keyLower, h, true, quirks);
    }
  }

  lemma {:induction false} WithoutSafe(hs: seq<Header>, key: bytes, quirks: bool)
    requires SafeFields(hs, quirks)
    ensures SafeFields(Without(hs, key), quirks)
  {
    hide SafeField;
    if hs != [] {
      WithoutSafe(hs[1..], key, quirks);
    }
  }

  /** A block with a status line that can be written and parsed back. */
  predicate WritableBlock(b: Block, quirks: bool) {
    b.status.Some? && SafeStatus(b.status.value, quirks) && SafeFields(b.headers, quirks)
  }

  lemma {:induction false} OverwriteHolds(hs: seq<Header>, keyLower: bytes, h: Header)
    ensures var r := Overwrite(hs, keyLower, h, false); r.1 ==> h in r.0
  {
    if hs != [] {
      OverwriteHolds(hs[1..], keyLower, h);
    }
  }

  lemma SafeFieldsHold(hs: seq<Header>, h: Header, quirks: bool)
    requires h in hs && SafeFields(hs, quirks)
    ensures SafeField(h, quirks)
  {
    hide SafeField;
  }

  /** An edit, whatever its value, keeps a block writable exactly when it is a good one. */
  lemma EditKeepsWritableIff(m: MapState, op: HeaderOp, quirks: bool)
    requires WritableBlock(m.block, quirks) && !op.Clear? && !Parses(op)
    ensures WritableBlock(ApplyOp(m, op).block, quirks) <==> GoodEdit(op)
  {
    hide SafeField, SafeFields, Sanitize, SafeStatus, Cleanable, Overwrite, Without;
    match op
    case Set(key, value) =>
      EditedFieldIsSafeIff(key, value, quirks);
      SetIsSafeIff(m.block.headers, key, value, quirks);
    case Append(key, value) =>
      EditedFieldIsSafeIff(key, value, quirks);
      AppendIsSafeIff(m.block.headers, SanitizedField(key, value), quirks);
    case Remove(key) =>
      WithoutSafe(m.block.headers, Sanitize(key, true), quirks);
    case SetStatus(status) =>
      StatusIsSafeIff(status, quirks);
  }

  lemma AppendIsSafeIff(hs: seq<Header>, h: Header, quirks: bool)
    requires SafeFields(hs, quirks)
    ensures SafeFields(hs + [h], quirks) <==> SafeField(h, quirks)
  {
    hide SafeField;
    assert (hs + [h])[|hs|] == h;
  }

  lemma SetIsSafeIff(hs: seq<Header>, key: bytes, value: bytes, quirks: bool)
    requires SafeFields(hs, quirks)
    ensures SafeFields(SetField(hs, key, value), quirks) <==> SafeField(SanitizedField(key, value), quirks)
  {
    hide SafeField, SafeFields, Sanitize, Overwrite;
    var h, keyLower := SanitizedField(key, value), Sanitize(Lower(key), true);
    var r := Overwrite(hs, keyLower, h, false);
    OverwriteHolds(hs, keyLower, h);
    if SafeField(h, quirks) {
      OverwriteSafe(hs, keyLower, h, false, quirks);
      AppendIsSafeIff(r.0, h, quirks);
    } else if SafeFields(SetField(hs, key, value), quirks) {
      SafeFieldsHold(SetField(hs, key, value), h, quirks);
    }
  }

  lemma StatusIsSafeIff(status: bytes, quirks: bool)
    ensures SafeStatus(Sanitize(status, true), quirks) <==> Cleanable(status)
  {
    hide Scrub, TrimEnd, TrimStart, Cleanable;
    CleanableIff(status);
    ScrubCleans(Trim(status), true);
  }

  lemma {:induction false} EditsKeepWritable(m: MapState, ops: seq<HeaderOp>, quirks: bool)
    requires WritableBlock(m.block, quirks) && forall i :: 0 <= i < |ops| ==> GoodEdit(ops[i])
    ensures SafeRun(m, ops) && WritableBlock(RunOps(m, ops).block, quirks)
    decreases |ops|
  {
    hide WritableBlock, ApplyOp;
    if ops != [] {
      EditKeepsWritableIff(m, ops[0], quirks);
      EditsKeepWritable(ApplyOp(m, ops[0]), ops[1..], quirks);
    }
  }

  /** After any run of edits, what is written parses back to the edited map, and is read to its end. */
  lemma EditedMapSurvives(m: MapState, ops: seq<HeaderOp>, quirks: bool)
    requires WritableBlock(m.block, quirks) && forall i :: 0 <= i < |ops| ==> GoodEdit(ops[i])
    ensures SafeRun(m, ops)
    ensures var b := RunOps(m, ops).block; Reparse(Serialize(b), quirks) == Scanned(ScanState(b, false), |Serialize(b)|, true)
  {
    hide GoodEdit, SafeStatus, SafeFields, RunOps, SafeRun, Scan;
    EditsKeepWritable(m, ops, quirks);
    WritableSurvives(RunOps(m, ops).block, quirks);
  }


  lemma {:induction false} ScrubKeeps(s: bytes)
    requires CR !in s && LF !in s
    ensures Scrub(s, false) == s
  {
    if s != [] {
      ScrubKeeps(s[1..]);
      assert [s[0]] + s[1..] == s;
    }
  }

  /** Colons are taken out of keys and status lines and stay in values, which without line breaks are only trimmed. */
  lemma ColonsStayInValues(m: MapState, key: bytes, value: bytes, status: bytes)
    ensures var line := ApplyOp(m, SetStatus(status)).block.status;
            line.Some? && Ascii(":")[0] !in line.value && CR !in line.value && LF !in line.value
    ensures Ascii(":")[0] !in SanitizedField(key, value).key
    ensures CR !in Trim(value) && LF !in Trim(value) ==> SanitizedField(key, value).value == Trim(value)
  {
    hide Scrub, Trim;
    ScrubCleans(Trim(status), true);
    ScrubCleans(Trim(key), true);
    if CR !in Trim(value) && LF !in Trim(value) {
      ScrubKeeps(Trim(value));
    }
  }
}
