/**
 What a filtered iteration of an archive finds (fastwarc-rs/src/warc/iter.rs):
 exactly the records that pass, each once, in order, at its offset and with its
 HTTP block taken off if that is asked for.
 */
module FilteredReports {
  import opened Wrappers
  import opened ByteStrings
  import opened RecordHead
  import opened ArchiveFormat
  import opened Archives
  import opened FilteredArchives

  /** The record as it is found: at its offset, and, if asked for, behind its HTTP block. */
  predicate Describes(v: View, r: ArchiveRecord, p: nat, o: Options) {
    var f := FieldsOf(r, o.quirks);
    && v.streamPos == p && v.headerBlock == r.version + r.block
    && v.fields.recordType == f.recordType && v.fields.isHttp == f.isHttp
    && (v.http.Some? <==> o.parseHttp && f.isHttp)
    && v.fields.contentLength <= |r.payload|
    && (if v.http.Some? then
          && |v.http.value| == HttpLength(r.payload, o.quirks)
          && v.http.value == r.payload[..|r.payload| - v.fields.contentLength]
        else v.fields.contentLength == |r.payload|)
  }

  lemma DescribesIff(v: View, r: ArchiveRecord, p: nat, o: Options)
    ensures Describes(v, r, p, o) <==> v == ViewOf(r, p, o)
  {
    hide FieldsOf, HttpLength;
    if v.http.Some? {
      var n := HttpLength(r.payload, o.quirks);
      assert HttpText(r.payload, o.quirks) == r.payload[..n];
    }
  }

  predicate PassesAs(v: View, r: ArchiveRecord, p: nat, o: Options, digest: DigestOracle) {
    Passes(digest(p), o) && v == ViewOf(r, p, o)
  }

  lemma {:induction false} PassingIff(rs: seq<ArchiveRecord>, p: nat, o: Options, digest: DigestOracle, v: View)
    ensures v in Passing(rs, p, o, digest) <==>
            exists i :: 0 <= i < |rs| && PassesAs(v, rs[i], p + StartOf(rs, i), o, digest)
    decreases |rs|
  {
    hide Passing, PassesAs, RecordText, StartOf;
    if rs == [] {
      NonePasses(p, o, digest);
    } else {
      var q := p + |RecordText(rs[0])|;
      PassingIff(rs[1..], q, o, digest, v);
      PassingSplits(rs, p, o, digest, v);
      StartsAt(rs);
      forall i | 0 < i < |rs|
        ensures PassesAs(v, rs[i], p + StartOf(rs, i), o, digest) <==>
                PassesAs(v, rs[1..][i - 1], q + StartOf(rs[1..], i - 1), o, digest)
      {
        StartBehindFirst(rs, i);
      }
      if v in Passing(rs[1..], q, o, digest) {
        var i :| 0 <= i < |rs[1..]| && PassesAs(v, rs[1..][i], q + StartOf(rs[1..], i), o, digest);
        assert PassesAs(v, rs[i + 1], p + StartOf(rs, i + 1), o, digest);
      }
    }
  }

  lemma StartsAt(rs: seq<ArchiveRecord>)
    ensures StartOf(rs, 0) == 0
  {
    assert rs[..0] == [];
  }

  lemma NonePasses(p: nat, o: Options, digest: DigestOracle)
    ensures Passing([], p, o, digest) == []
  {
  }

  lemma PassingSplits(rs: seq<ArchiveRecord>, p: nat, o: Options, digest: DigestOracle, v: View)
    requires rs != []
    ensures v in Passing(rs, p, o, digest) <==>
            PassesAs(v, rs[0], p, o, digest) || v in Passing(rs[1..], p + |RecordText(rs[0])|, o, digest)
  {
    hide Passes, ViewOf, RecordText;
  }

  lemma {:induction false} FilterIff(seen: seq<View>, pred: View -> bool, v: View)
    ensures v in Filter(seen, pred) <==> v in seen && pred(v)
  {
    if seen != [] {
      FilterIff(seen[1..], pred, v);
      assert seen == [seen[0]] + seen[1..];
    }
  }

  /** Found are exactly the records whose digest matches, if that is asked for, and which the caller's filter accepts. */
  lemma FoundIff(rs: seq<ArchiveRecord>, o: Options, digest: DigestOracle, pred: View -> bool, v: View)
    ensures v in Filter(Passing(rs, 0, o, digest), pred) <==>
            && pred(v)
            && exists i :: 0 <= i < |rs| && Describes(v, rs[i], StartOf(rs, i), o)
                           && (o.verifyDigests ==> digest(StartOf(rs, i)) == Compared(true))
  {
    hide Describes, ViewOf, RecordText, ArchiveText, StartOf;
    FilterIff(Passing(rs, 0, o, digest), pred, v);
    PassingIff(rs, 0, o, digest, v);
    forall i | 0 <= i < |rs|
      ensures Describes(v, rs[i], StartOf(rs, i), o) <==> v == ViewOf(rs[i], StartOf(rs, i), o)
    {
      DescribesIff(v, rs[i], StartOf(rs, i), o);
    }
  }

  predicate Ascending(seen: seq<View>, p: nat) {
    seen != [] ==> p <= seen[0].streamPos && Ascending(seen[1..], seen[0].streamPos + 1)
  }

  lemma {:induction false} AscendingFrom(seen: seq<View>, p: nat, q: nat)
    requires Ascending(seen, q) && p <= q
    ensures Ascending(seen, p)
  {
  }

  lemma {:induction false} PassingAscends(rs: seq<ArchiveRecord>, p: nat, o: Options, digest: DigestOracle)
    ensures Ascending(Passing(rs, p, o, digest), p)
    decreases |rs|
  {
    hide Passes, FieldsOf, HttpLength;
    if rs != [] {
      var q := p + |RecordText(rs[0])|;
      assert q > p;
      PassingAscends(rs[1..], q, o, digest);
      var rest := Passing(rs[1..], q, o, digest);
      AscendingFrom(rest, p + 1, q);
      AscendingFrom(rest, p, q);
      assert [] + rest == rest && ([ViewOf(rs[0], p, o)] + rest)[1..] == rest;
    }
  }

  lemma {:induction false} FilterAscends(seen: seq<View>, pred: View -> bool, p: nat)
    requires Ascending(seen, p)
    ensures Ascending(Filter(seen, pred), p)
  {
    if seen != [] {
      var rest := Filter(seen[1..], pred);
      FilterAscends(seen[1..], pred, seen[0].streamPos + 1);
      AscendingFrom(rest, p, seen[0].streamPos + 1);
      assert [] + rest == rest && ([seen[0]] + rest)[1..] == rest;
    }
  }

  /** They are found in their order, and none twice. */
  lemma FoundInOrder(rs: seq<ArchiveRecord>, o: Options, digest: DigestOracle, pred: View -> bool)
    ensures Ascending(Filter(Passing(rs, 0, o, digest), pred), 0)
  {
    PassingAscends(rs, 0, o, digest);
    FilterAscends(Passing(rs, 0, o, digest), pred, 0);
  }
}
