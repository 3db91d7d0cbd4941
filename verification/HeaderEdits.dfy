/**
 Editing a list of named fields (fastwarc-rs/src/warc/header.rs): what the
 mutators of the header map do, and the multimap laws they obey.
 */
module HeaderEdits {
  import opened Wrappers
  import opened ByteStrings
  import opened HeaderScan

  /** Drops CR and, in keys, colons; LF becomes a blank. */
  function Scrub(s: bytes, isKey: bool): (r: bytes)
    ensures |r| <= |s|
  {
    if s == [] then []
    else if s[0] == CR || (isKey && s[0] == COLON) then Scrub(s[1..], isKey)
    else [if s[0] == LF then SP else s[0]] + Scrub(s[1..], isKey)
  }

  function Sanitize(s: bytes, isKey: bool): (r: bytes) {
    Scrub(Trim(s), isKey)
  }

  function SanitizedField(key: bytes, value: bytes): (r: Header) {
    Header(Sanitize(key, true), Sanitize(value, false))
  }

  /** All values of a key, compared without case. */
  function GetAll(hs: seq<Header>, key: bytes): (r: seq<bytes>) {
    if hs == [] then []
    else (if EqIgnoreCase(hs[0].key, key) then [hs[0].value] else []) + GetAll(hs[1..], key)
  }

  function GetFirst(hs: seq<Header>, key: bytes): (r: Option<bytes>) {
    if hs == [] then None
    else if EqIgnoreCase(hs[0].key, key) then Some(hs[0].value)
    else GetFirst(hs[1..], key)
  }

  /** The fields whose key is not `key`. */
  function Without(hs: seq<Header>, key: bytes): (r: seq<Header>)
    ensures |r| <= |hs|
  {
    if hs == [] then []
    else (if EqIgnoreCase(hs[0].key, key) then [] else [hs[0]]) + Without(hs[1..], key)
  }

  /**
   One pass over the fields: the first one with the given lower-case key is
   replaced by `h` unless that happened before, the others are dropped.
   */
  function Overwrite(hs: seq<Header>, keyLower: bytes, h: Header, found: bool): (r: (seq<Header>, bool)) {
    if hs == [] then ([], found)
    else if Lower(hs[0].key) != keyLower then
      var r := Overwrite(hs[1..], keyLower, h, found);
      ([hs[0]] + r.0, r.1)
    else
      var r := Overwrite(hs[1..], keyLower, h, true);
      ((if found then [] else [h]) + r.0, r.1)
  }

  /** The fields after `set_bytes`. */
  function SetField(hs: seq<Header>, key: bytes, value: bytes): (r: seq<Header>) {
    var h := SanitizedField(key, value);
    var r := Overwrite(hs, Sanitize(Lower(key), true), h, false);
    if r.1 then r.0 else r.0 + [h]
  }

  lemma {:induction false} ScrubPlain(s: bytes, isKey: bool)
    requires forall i :: 0 <= i < |s| ==> !IsSpace(s[i]) && (isKey ==> s[i] != COLON)
    ensures Scrub(s, isKey) == s
  {
    if s != [] {
      ScrubPlain(s[1..], isKey);
      assert [s[0]] + s[1..] == s;
    }
  }

  /** What has neither white space nor, in keys, colons is not changed by sanitising. */
  lemma SanitizesToItself(s: bytes, isKey: bool)
    requires forall i :: 0 <= i < |s| ==> !IsSpace(s[i]) && (isKey ==> s[i] != COLON)
    ensures Sanitize(s, isKey) == s
  {
    ScrubPlain(s, isKey);
  }

  // ------------------------------------------------------------------
  // Case folding commutes with sanitising
  // ------------------------------------------------------------------

  lemma LowerKeepsClass(b: byte)
    ensures IsSpace(LowerByte(b)) == IsSpace(b)
    ensures (LowerByte(b) == CR) == (b == CR) && (LowerByte(b) == LF) == (b == LF) && (LowerByte(b) == COLON) == (b == COLON)
    ensures LowerByte(LowerByte(b)) == LowerByte(b)
  {
  }

  lemma {:induction false} LowerTrimEnd(s: bytes)
    ensures TrimEnd(Lower(s)) == Lower(TrimEnd(s))
  {
    if s != [] {
      LowerKeepsClass(s[|s| - 1]);
      assert Lower(s)[..|s| - 1] == Lower(s[..|s| - 1]);
      LowerTrimEnd(s[..|s| - 1]);
    }
  }

  lemma {:induction false} LowerTrimStart(s: bytes)
    ensures TrimStart(Lower(s)) == Lower(TrimStart(s))
  {
    if s != [] {
      LowerKeepsClass(s[0]);
      assert Lower(s)[1..] == Lower(s[1..]);
      LowerTrimStart(s[1..]);
    }
  }

  lemma {:induction false} LowerScrub(s: bytes, isKey: bool)
    ensures Scrub(Lower(s), isKey) == Lower(Scrub(s, isKey))
  {
    if s != [] {
      LowerKeepsClass(s[0]);
      assert Lower(s)[1..] == Lower(s[1..]);
      LowerScrub(s[1..], isKey);
    }
  }

  /** The key that is searched for is the lower-case form of the key that is stored. */
  lemma LowerSanitize(key: bytes)
    ensures Sanitize(Lower(key), true) == Lower(Sanitize(key, true))
  {
    LowerTrimEnd(key);
    LowerTrimStart(TrimEnd(key));
    LowerScrub(Trim(key), true);
  }

  // ------------------------------------------------------------------
  // Multimap laws
  // ------------------------------------------------------------------

  lemma {:induction false} OverwriteGets(hs: seq<Header>, h: Header, found: bool, key: bytes)
    ensures var r := Overwrite(hs, Lower(h.key), h, found);
            && r.1 == (found || GetAll(hs, h.key) != [])
            && GetAll(r.0, h.key) == (if found || GetAll(hs, h.key) == [] then [] else [h.value])
            && (!EqIgnoreCase(key, h.key) ==> GetAll(r.0, key) == GetAll(hs, key))
  {
    if hs != [] {
      OverwriteGets(hs[1..], h, found || EqIgnoreCase(hs[0].key, h.key), key);
      var rest := Overwrite(hs[1..], Lower(h.key), h, found || EqIgnoreCase(hs[0].key, h.key)).0;
      GetAllConcat([hs[0]], rest, h.key);
      GetAllConcat([hs[0]], rest, key);
      GetAllConcat([h], rest, h.key);
      GetAllConcat([h], rest, key);
      assert [] + rest == rest;
    }
  }

  lemma {:induction false} GetAllConcat(a: seq<Header>, b: seq<Header>, key: bytes)
    ensures GetAll(a + b, key) == GetAll(a, key) + GetAll(b, key)
  {
    if a == [] {
      assert a + b == b;
    } else {
      assert (a + b)[1..] == a[1..] + b;
      GetAllConcat(a[1..], b, key);
    }
  }

  /** After `set`, the key has exactly the one value, and no other key is touched. */
  lemma SetThenGet(hs: seq<Header>, key: bytes, value: bytes, other: bytes)
    ensures GetAll(SetField(hs, key, value), Sanitize(key, true)) == [Sanitize(value, false)]
    ensures !EqIgnoreCase(other, Sanitize(key, true)) ==> GetAll(SetField(hs, key, value), other) == GetAll(hs, other)
  {
    hide Sanitize;
    var h := SanitizedField(key, value);
    LowerSanitize(key);
    OverwriteGets(hs, h, false, other);
    var r := Overwrite(hs, Lower(h.key), h, false).0;
    GetAllConcat(r, [h], h.key);
    GetAllConcat(r, [h], other);
    assert [] + [h.value] == [h.value];
    assert GetAll(r, other) + [] == GetAll(r, other);
  }

  lemma {:induction false} OverwriteAfterFound(hs: seq<Header>, h: Header)
    ensures Overwrite(hs, Lower(h.key), h, true) == (Without(hs, h.key), true)
  {
    if hs != [] {
      OverwriteAfterFound(hs[1..], h);
    }
  }

  lemma {:induction false} OverwriteAt(hs: seq<Header>, h: Header, i: nat)
    requires i <= |hs| && forall j :: 0 <= j < i ==> !EqIgnoreCase(hs[j].key, h.key)
    requires i < |hs| ==> EqIgnoreCase(hs[i].key, h.key)
    ensures Overwrite(hs, Lower(h.key), h, false) ==
            if i < |hs| then (hs[..i] + [h] + Without(hs[i + 1..], h.key), true) else (hs, false)
  {
    if i == 0 {
      if hs != [] {
        OverwriteAfterFound(hs[1..], h);
        assert hs[..0] + [h] == [h];
      }
    } else {
      var tl := hs[1..];
      assert forall j :: 0 <= j < i - 1 ==> tl[j] == hs[j + 1];
      OverwriteAt(tl, h, i - 1);
      if i < |hs| {
        assert tl[i..] == hs[i + 1..];
        var rest := Without(hs[i + 1..], h.key);
        assert [hs[0]] + (tl[..i - 1] + [h] + rest) == hs[..i] + [h] + rest;
      } else {
        assert [hs[0]] + tl == hs;
      }
    }
  }

  /** `set` works in place: the first field with the key changes, its later namesakes go, the rest stays. */
  lemma SetInPlace(hs: seq<Header>, key: bytes, value: bytes, i: nat)
    requires i <= |hs| && forall j :: 0 <= j < i ==> !EqIgnoreCase(hs[j].key, Sanitize(key, true))
    requires i < |hs| ==> EqIgnoreCase(hs[i].key, Sanitize(key, true))
    ensures var h := SanitizedField(key, value);
            SetField(hs, key, value) == if i < |hs| then hs[..i] + [h] + Without(hs[i + 1..], h.key) else hs + [h]
  {
    hide Sanitize;
    LowerSanitize(key);
    OverwriteAt(hs, SanitizedField(key, value), i);
  }

  /** After `append`, the value is the key's last one. */
  lemma AppendThenGet(hs: seq<Header>, key: bytes, value: bytes, other: bytes)
    ensures var h := SanitizedField(key, value);
            GetAll(hs + [h], other) == GetAll(hs, other) + (if EqIgnoreCase(h.key, other) then [h.value] else [])
  {
    hide Sanitize;
    GetAllConcat(hs, [SanitizedField(key, value)], other);
  }

  /** After `remove`, the key has no value, and no other key is touched. */
  lemma {:induction false} RemoveThenGet(hs: seq<Header>, key: bytes, other: bytes)
    ensures GetAll(Without(hs, key), other) == if EqIgnoreCase(other, key) then [] else GetAll(hs, other)
    ensures |Without(hs, key)| == |hs| - |GetAll(hs, key)|
  {
    if hs != [] {
      RemoveThenGet(hs[1..], key, other);
      GetAllConcat([hs[0]], Without(hs[1..], key), other);
      assert [] + Without(hs[1..], key) == Without(hs[1..], key);
    }
  }

  lemma {:induction false} GetFirstIsHead(hs: seq<Header>, key: bytes)
    ensures GetFirst(hs, key) == if GetAll(hs, key) == [] then None else Some(GetAll(hs, key)[0])
  {
    if hs != [] {
      GetFirstIsHead(hs[1..], key);
    }
  }

  // ------------------------------------------------------------------
  // The loops behind the edits
  // ------------------------------------------------------------------

  /** `set` has dealt with the first `i` fields and kept `kept` of them. */
  ghost predicate SetStep(hs: seq<Header>, keyLower: bytes, h: Header, i: nat, kept: seq<Header>, found: bool) {
    && i <= |hs|
    && var rest := Overwrite(hs[i..], keyLower, h, found);
    Overwrite(hs, keyLower, h, false) == (kept + rest.0, rest.1)
  }

  lemma SetStepStarts(hs: seq<Header>, keyLower: bytes, h: Header)
    ensures SetStep(hs, keyLower, h, 0, [], false)
  {
    assert hs[0..] == hs;
    assert [] + Overwrite(hs, keyLower, h, false).0 == Overwrite(hs, keyLower, h, false).0;
  }

  lemma SetStepOn(hs: seq<Header>, keyLower: bytes, h: Header, i: nat, kept: seq<Header>, found: bool)
    requires i < |hs| && SetStep(hs, keyLower, h, i, kept, found)
    ensures var same := Lower(hs[i].key) == keyLower;
            SetStep(hs, keyLower, h, i + 1,
                    if !same then kept + [hs[i]] else if !found then kept + [h] else kept, found || same)
  {
    hide Lower, Overwrite;
    OverwriteSteps(hs, keyLower, h, i, found);
    var rest := Overwrite(hs[i + 1..], keyLower, h, found || Lower(hs[i].key) == keyLower).0;
    assert kept + ([hs[i]] + rest) == kept + [hs[i]] + rest;
    assert kept + ([h] + rest) == kept + [h] + rest;
  }

  lemma OverwriteSteps(hs: seq<Header>, keyLower: bytes, h: Header, i: nat, found: bool)
    requires i < |hs|
    ensures var same := Lower(hs[i].key) == keyLower;
            var rest := Overwrite(hs[i + 1..], keyLower, h, found || same);
            Overwrite(hs[i..], keyLower, h, found) ==
            (if !same then [hs[i]] + rest.0 else if !found then [h] + rest.0 else rest.0, rest.1)
  {
    hide Lower;
    assert hs[i..][1..] == hs[i + 1..];
    var rest := Overwrite(hs[i + 1..], keyLower, h, found || Lower(hs[i].key) == keyLower).0;
    assert [] + rest == rest;
  }

  lemma SetStepEnds(hs: seq<Header>, keyLower: bytes, h: Header, kept: seq<Header>, found: bool)
    requires SetStep(hs, keyLower, h, |hs|, kept, found)
    ensures Overwrite(hs, keyLower, h, false) == (kept, found)
  {
    assert kept + [] == kept;
  }

  /** `remove` has dealt with the first `i` fields and kept `kept` of them. */
  ghost predicate RemoveStep(hs: seq<Header>, key: bytes, i: nat, kept: seq<Header>) {
    i <= |hs| && Without(hs, key) == kept + Without(hs[i..], key)
  }

  lemma RemoveStepOn(hs: seq<Header>, key: bytes, i: nat, kept: seq<Header>)
    requires i < |hs| && RemoveStep(hs, key, i, kept)
    ensures RemoveStep(hs, key, i + 1, if EqIgnoreCase(hs[i].key, key) then kept else kept + [hs[i]])
  {
    hide EqIgnoreCase;
    assert hs[i..][1..] == hs[i + 1..];
    var rest := Without(hs[i + 1..], key);
    assert [] + rest == rest;
    assert kept + ([hs[i]] + rest) == kept + [hs[i]] + rest;
  }

  lemma RemoveStepStarts(hs: seq<Header>, key: bytes)
    ensures RemoveStep(hs, key, 0, [])
  {
    assert hs[0..] == hs;
    assert [] + Without(hs, key) == Without(hs, key);
  }

  lemma {:induction false} WithoutNone(hs: seq<Header>, key: bytes)
    ensures |Without(hs, key)| == |hs| ==> Without(hs, key) == hs
  {
    if hs != [] {
      WithoutNone(hs[1..], key);
      assert [hs[0]] + hs[1..] == hs;
    }
  }

  lemma RemoveStepEnds(hs: seq<Header>, key: bytes, kept: seq<Header>)
    requires RemoveStep(hs, key, |hs|, kept)
    ensures kept == Without(hs, key) && (|kept| == |hs| <==> kept == hs)
  {
    assert kept + [] == kept;
    WithoutNone(hs, key);
  }
}
