/**
 The token list over a class attribute (resiliparse-rs/src/parse/html/dom/coll.rs):
 a string that is read as an ordered set, and edited by writing that set anew.
 */
module TokenLists {
  import opened Wrappers
  import opened VisibleText

  // ------------------------------------------------------------------
  // Splitting and joining
  // ------------------------------------------------------------------

  /** The length of the text without white space at the start. */
  function Run(s: string): (n: nat)
    ensures n <= |s| && (s != [] && !IsBlank(s[0]) ==> n > 0)
  {
    if s == [] || IsBlank(s[0]) then 0 else 1 + Run(s[1..])
  }

  function Split(s: string): (r: seq<string>)
    decreases |s|
  {
    if s == [] then []
    else if IsBlank(s[0]) then Split(s[1..])
    else [s[..Run(s)]] + Split(s[Run(s)..])
  }

  function Join(ts: seq<string>): (r: string) {
    if ts == [] then [] else if |ts| == 1 then ts[0] else ts[0] + " " + Join(ts[1..])
  }

  predicate IsToken(t: string) {
    t != [] && forall i :: 0 <= i < |t| ==> !IsBlank(t[i])
  }

  predicate AllTokens(ts: seq<string>) {
    forall i :: 0 <= i < |ts| ==> IsToken(ts[i])
  }

  lemma {:induction false} RunIsToken(s: string)
    ensures forall i :: 0 <= i < Run(s) ==> !IsBlank(s[i])
    ensures Run(s) < |s| ==> IsBlank(s[Run(s)])
  {
    if s != [] && !IsBlank(s[0]) {
      RunIsToken(s[1..]);
      assert forall i :: 1 <= i < Run(s) ==> s[i] == s[1..][i - 1];
    }
  }

  lemma {:induction false} RunBefore(a: string, b: string)
    requires b == [] || IsBlank(b[0])
    ensures Run(a + b) == Run(a)
  {
    if a == [] {
      assert a + b == b;
    } else if !IsBlank(a[0]) {
      assert (a + b)[1..] == a[1..] + b;
      RunBefore(a[1..], b);
    }
  }

  lemma {:induction false} SplitGivesTokens(s: string)
    ensures AllTokens(Split(s))
    decreases |s|
  {
    if s != [] {
      if IsBlank(s[0]) {
        SplitGivesTokens(s[1..]);
      } else {
        RunIsToken(s);
        SplitGivesTokens(s[Run(s)..]);
      }
    }
  }

  /** White space separates. */
  lemma {:induction false} SplitAtBlank(a: string, b: string)
    ensures Split(a + " " + b) == Split(a) + Split(b)
    decreases |a|
  {
    var s := a + " " + b;
    if a == [] {
      assert s[1..] == b;
      assert [] + Split(b) == Split(b);
    } else if IsBlank(a[0]) {
      assert s[1..] == a[1..] + " " + b;
      SplitAtBlank(a[1..], b);
    } else {
      assert s == a + (" " + b);
      RunBefore(a, " " + b);
      var n := Run(a);
      assert s[..n] == a[..n] && s[n..] == a[n..] + " " + b;
      SplitAtBlank(a[n..], b);
      assert [a[..n]] + (Split(a[n..]) + Split(b)) == [a[..n]] + Split(a[n..]) + Split(b);
    }
  }

  /** The tokens in each of the strings. */
  function Flatten(ts: seq<string>): (r: seq<string>) {
    if ts == [] then [] else Split(ts[0]) + Flatten(ts[1..])
  }

  /** Reading back what was joined gives the tokens of the parts. */
  lemma {:induction false} SplitOfJoin(ts: seq<string>)
    ensures Split(Join(ts)) == Flatten(ts)
  {
    hide Split;
    SplitNothing();
    if |ts| == 1 {
      assert ts[1..] == [];
      assert Split(ts[0]) + [] == Split(ts[0]);
    } else if |ts| > 1 {
      SplitAtBlank(ts[0], Join(ts[1..]));
      SplitOfJoin(ts[1..]);
    }
  }

  lemma SplitNothing()
    ensures Split([]) == []
  {
  }

  lemma SplitToken(t: string)
    requires IsToken(t)
    ensures Split(t) == [t]
  {
    RunIsToken(t);
    var n := Run(t);
    assert n == |t|;
    assert t[..n] == t && t[n..] == [];
  }

  /** A list comes back as it was written exactly when it consists of tokens. */
  lemma {:induction false} FlattenTokens(ts: seq<string>)
    ensures AllTokens(ts) ==> Flatten(ts) == ts
  {
    hide Split;
    if ts != [] && AllTokens(ts) {
      SplitToken(ts[0]);
      FlattenTokens(ts[1..]);
      assert [ts[0]] + ts[1..] == ts;
    }
  }

  lemma JoinSurvivesIff(ts: seq<string>)
    ensures Split(Join(ts)) == ts <==> AllTokens(ts)
  {
    hide Split, Join, Flatten;
    SplitOfJoin(ts);
    FlattenTokens(ts);
    SplitGivesTokens(Join(ts));
  }

  // ------------------------------------------------------------------
  // Ordered sets
  // ------------------------------------------------------------------

  predicate NoDup(ts: seq<string>) {
    ts == [] || (ts[0] !in ts[1..] && NoDup(ts[1..]))
  }

  /** Only the first occurrences, and only of what has not been seen. */
  function Unique(ts: seq<string>, seen: set<string>): (r: seq<string>) {
    if ts == [] then []
    else if ts[0] in seen then Unique(ts[1..], seen)
    else [ts[0]] + Unique(ts[1..], seen + {ts[0]})
  }

  lemma {:induction false} UniqueIsSet(ts: seq<string>, seen: set<string>)
    ensures NoDup(Unique(ts, seen))
    ensures forall x :: x in Unique(ts, seen) <==> x in ts && x !in seen
  {
    if ts != [] {
      UniqueIsSet(ts[1..], if ts[0] in seen then seen else seen + {ts[0]});
      if ts[0] !in seen {
        var rest := Unique(ts[1..], seen + {ts[0]});
        assert ([ts[0]] + rest)[1..] == rest;
      }
    }
  }

  lemma {:induction false} UniqueKeepsSets(ts: seq<string>, seen: set<string>)
    requires NoDup(ts) && forall x :: x in ts ==> x !in seen
    ensures Unique(ts, seen) == ts
  {
    if ts != [] {
      UniqueKeepsSets(ts[1..], seen + {ts[0]});
      assert [ts[0]] + ts[1..] == ts;
    }
  }

  /** Appending to an ordered set. */
  function Append(ts: seq<string>, t: string): (r: seq<string>) {
    if t in ts then ts else ts + [t]
  }

  function AppendAll(ts: seq<string>, more: seq<string>): (r: seq<string>)
    decreases |more|
  {
    if more == [] then ts else AppendAll(Append(ts, more[0]), more[1..])
  }

  function Without(ts: seq<string>, gone: seq<string>): (r: seq<string>) {
    if ts == [] then [] else (if ts[0] in gone then [] else [ts[0]]) + Without(ts[1..], gone)
  }

  /** Replacing in an ordered set: the first of either becomes `to`, the other one goes. */
  function ReplaceFirst(ts: seq<string>, from: string, to: string, done: bool): (r: seq<string>) {
    if ts == [] then []
    else if ts[0] == from || ts[0] == to then (if done then [] else [to]) + ReplaceFirst(ts[1..], from, to, true)
    else [ts[0]] + ReplaceFirst(ts[1..], from, to, done)
  }

  /** Replacing in a list. */
  function Renamed(ts: seq<string>, from: string, to: string): (r: seq<string>) {
    if ts == [] then [] else [if ts[0] == from then to else ts[0]] + Renamed(ts[1..], from, to)
  }

  lemma {:induction false} WithoutIsSet(ts: seq<string>, gone: seq<string>)
    requires NoDup(ts)
    ensures NoDup(Without(ts, gone))
    ensures forall x :: x in Without(ts, gone) <==> x in ts && x !in gone
  {
    if ts != [] {
      WithoutIsSet(ts[1..], gone);
      var rest := Without(ts[1..], gone);
      assert ts[0] !in gone ==> ([ts[0]] + rest)[1..] == rest;
      assert [] + rest == rest;
    }
  }

  /** Renaming in the list and reading it as a set is replacing in the set. */
  lemma {:induction false} RenamedReplaces(ts: seq<string>, from: string, to: string, seen: set<string>)
    requires NoDup(ts) && forall x :: x in ts && x in seen ==> x == to
    ensures Unique(Renamed(ts, from, to), seen) == ReplaceFirst(ts, from, to, to in seen)
  {
    if ts != [] {
      var t := if ts[0] == from then to else ts[0];
      var rest := Renamed(ts[1..], from, to);
      assert ([t] + rest)[1..] == rest;
      RenamedReplaces(ts[1..], from, to, if t in seen then seen else seen + {t});
      assert forall u: seq<string> :: [] + u == u;
    }
  }

  /** The places of the tokens that stay, in order. */
  predicate StandsAt(r: seq<string>, ts: seq<string>, at: seq<nat>) {
    && |at| == |r| && (forall k :: 0 <= k < |at| ==> at[k] < |ts| && r[k] == ts[at[k]])
    && forall j, k :: 0 <= j < k < |at| ==> at[j] < at[k]
  }

  function Moved(at: seq<nat>, first: bool): (r: seq<nat>) {
    (if first then [0] else []) + seq(|at|, k requires 0 <= k < |at| => at[k] + 1)
  }

  lemma MovedStands(r: seq<string>, ts: seq<string>, at: seq<nat>, first: bool)
    requires ts != [] && StandsAt(r, ts[1..], at)
    ensures StandsAt((if first then [ts[0]] else []) + r, ts, Moved(at, first))
  {
    var tail := seq(|at|, k requires 0 <= k < |at| => at[k] + 1);
    assert |tail| == |r| && forall k :: 0 <= k < |at| ==> tail[k] == at[k] + 1 && r[k] == ts[tail[k]];
  }

  /** Removing tokens leaves the others in their order. */
  lemma {:induction false} WithoutKeepsOrder(ts: seq<string>, gone: seq<string>) returns (at: seq<nat>)
    ensures StandsAt(Without(ts, gone), ts, at)
  {
    at := [];
    if ts != [] {
      var rest := WithoutKeepsOrder(ts[1..], gone);
      MovedStands(Without(ts[1..], gone), ts, rest, ts[0] !in gone);
      at := Moved(rest, ts[0] !in gone);
    }
  }

  lemma MovedFrom(at: seq<nat>, first: bool, k: nat)
    requires k < |Moved(at, first)|
    ensures if first && k == 0 then Moved(at, first)[k] == 0
            else var j := if first then k - 1 else k; j < |at| && Moved(at, first)[k] == at[j] + 1
  {
  }

  /** Each token is kept at the first place where it stands. */
  lemma {:induction false} UniqueKeepsFirst(ts: seq<string>, seen: set<string>) returns (at: seq<nat>)
    ensures StandsAt(Unique(ts, seen), ts, at)
    ensures forall k :: 0 <= k < |at| ==> ts[at[k]] !in seen && ts[at[k]] !in ts[..at[k]]
  {
    at := [];
    if ts != [] {
      var first := ts[0] !in seen;
      var next := if first then seen + {ts[0]} else seen;
      var rest := UniqueKeepsFirst(ts[1..], next);
      MovedStands(Unique(ts[1..], next), ts, rest, first);
      at := Moved(rest, first);
      forall k | 0 <= k < |at|
        ensures ts[at[k]] !in seen && ts[at[k]] !in ts[..at[k]]
      {
        MovedFrom(rest, first, k);
        if at[k] > 0 {
          var j := at[k] - 1;
          assert ts[1..][j] == ts[at[k]] && ts[..at[k]] == [ts[0]] + ts[1..][..j];
        }
      }
    }
  }

  lemma {:induction false} TokensWithout(ts: seq<string>, gone: seq<string>)
    requires AllTokens(ts)
    ensures AllTokens(Without(ts, gone))
  {
    if ts != [] {
      TokensWithout(ts[1..], gone);
    }
  }

  // ------------------------------------------------------------------
  // The list
  // ------------------------------------------------------------------

  /** What is read from a class attribute with this value. */
  function ValuesOf(value: string): (r: seq<string>) {
    Unique(Split(value), {})
  }

  lemma ValuesAreTokenSet(value: string)
    ensures NoDup(ValuesOf(value)) && AllTokens(ValuesOf(value))
    ensures forall x :: x in ValuesOf(value) <==> x in Split(value)
  {
    hide Split, Unique, NoDup;
    var vs := ValuesOf(value);
    UniqueIsSet(Split(value), {});
    SplitGivesTokens(value);
    forall i | 0 <= i < |vs|
      ensures IsToken(vs[i])
    {
      assert vs[i] in vs;
    }
  }

  /** What is written is read as the set of its tokens; a duplicate-free list of tokens is read as it is. */
  lemma ValuesOfJoin(ts: seq<string>)
    ensures ValuesOf(Join(ts)) == Unique(Flatten(ts), {})
    ensures AllTokens(ts) ==> ValuesOf(Join(ts)) == Unique(ts, {})
    ensures AllTokens(ts) && NoDup(ts) ==> ValuesOf(Join(ts)) == ts
  {
    hide Split, Join, Flatten, Unique;
    SplitOfJoin(ts);
    FlattenTokens(ts);
    if AllTokens(ts) && NoDup(ts) {
      UniqueKeepsSets(ts, {});
    }
  }

  datatype Edit = Add(tokens: seq<string>) | Remove(gone: seq<string>) | Replace(from: string, to: string)
                | Toggle(token: string, force: Option<bool>)

  /** What an edit puts into the list are tokens; the source does not ask for that. */
  predicate PutsTokens(e: Edit) {
    match e
    case Add(tokens) => AllTokens(tokens)
    case Remove(_) => true
    case Replace(_, to) => IsToken(to)
    case Toggle(token, _) => IsToken(token)
  }

  /** The list with the tokens `to` in place of `from`. */
  function Spliced(ts: seq<string>, from: string, to: seq<string>): (r: seq<string>) {
    if ts == [] then [] else (if ts[0] == from then to else [ts[0]]) + Spliced(ts[1..], from, to)
  }

  /** What an edit does to the ordered set, and what it answers: a string counts as the tokens in it. */
  function Edited(ts: seq<string>, e: Edit): (r: (seq<string>, bool)) {
    match e
    case Add(tokens) => (AppendAll(ts, Flatten(tokens)), true)
    case Remove(gone) => (Without(ts, gone), true)
    case Replace(from, to) => (Unique(Spliced(ts, from, Split(to)), {}), from in ts)
    case Toggle(token, force) =>
      var on := if force.Some? then force.value else token !in ts;
      (if on then AppendAll(ts, Split(token)) else Without(ts, [token]), on)
  }

  /** The operations on an ordered set that section 7.1 of the DOM Standard describes, and their answers. */
  function Standard(ts: seq<string>, e: Edit): (r: (seq<string>, bool)) {
    match e
    case Add(tokens) => (AppendAll(ts, tokens), true)
    case Remove(gone) => (Without(ts, gone), true)
    case Replace(from, to) => if from in ts then (ReplaceFirst(ts, from, to, false), true) else (ts, false)
    case Toggle(token, force) =>
      var on := if force.Some? then force.value else token !in ts;
      (if on then Append(ts, token) else Without(ts, [token]), on)
  }

  lemma {:induction false} RenamedAbsent(ts: seq<string>, from: string, to: string)
    requires from !in ts
    ensures Renamed(ts, from, to) == ts
  {
    if ts != [] {
      RenamedAbsent(ts[1..], from, to);
      assert [ts[0]] + ts[1..] == ts;
    }
  }

  class TokenList {
    var value: string

    constructor (value: string)
      ensures this.value == value
    {
      this.value := value;
    }

    /** The tokens, each at its first place. */
    method Values() returns (r: seq<string>)
      ensures r == ValuesOf(value) && NoDup(r) && AllTokens(r)
    {
      hide Split, Unique, NoDup;
      ValuesAreTokenSet(value);
      var all := Split(value);
      var seen: set<string> := {};
      r := [];
      assert all[0..] == all;
      NothingUnique(seen);
      for i := 0 to |all|
        invariant r + Unique(all[i..], seen) == Unique(all, {})
      {
        UniqueStep(all, i, seen);
        NothingUnique(seen);
        if all[i] !in seen {
          seen := seen + {all[i]};
          r := r + [all[i]];
        }
      }
      NothingUnique(seen);
      assert all[|all|..] == [];
    }

    method Contains(token: string) returns (r: bool)
      ensures r <==> token in ValuesOf(value)
    {
      var vs := Values();
      return token in vs;
    }

    method AddTokens(tokens: seq<string>)
      modifies this
      ensures value == Join(AppendAll(ValuesOf(old(value)), tokens))
    {
      var values := Values();
      for i := 0 to |tokens|
        invariant AppendAll(values, tokens[i..]) == AppendAll(ValuesOf(old(value)), tokens) && value == old(value)
      {
        assert tokens[i..][1..] == tokens[i + 1..];
        if tokens[i] !in values {
          values := values + [tokens[i]];
        }
      }
      value := Join(values);
    }

    method RemoveTokens(tokens: seq<string>)
      modifies this
      ensures value == Join(Without(ValuesOf(old(value)), tokens))
    {
      var values := Values();
      value := Join(Without(values, tokens));
    }

    method ReplaceToken(from: string, to: string) returns (replaced: bool)
      modifies this
      ensures value == Join(Renamed(ValuesOf(old(value)), from, to)) && (replaced <==> from in ValuesOf(old(value)))
    {
      var values := Values();
      value := Join(Renamed(values, from, to));
      return from in values;
    }

    method ToggleToken(token: string, force: Option<bool>) returns (on: bool)
      modifies this
      ensures on == if force.Some? then force.value else token !in ValuesOf(old(value))
      ensures value == Join(if on then AppendAll(ValuesOf(old(value)), [token]) else Without(ValuesOf(old(value)), [token]))
    {
      if force.Some? {
        if force.value {
          AddTokens([token]);
        } else {
          RemoveTokens([token]);
        }
        return force.value;
      }
      var present := Contains(token);
      if present {
        RemoveTokens([token]);
        return false;
      } else {
        AddTokens([token]);
        return true;
      }
    }

    /** What every edit does to the token set and answers; with tokens, that is what the standard describes. */
    method Apply(e: Edit) returns (answer: bool)
      modifies this
      ensures (ValuesOf(value), answer) == Edited(ValuesOf(old(value)), e)
      ensures PutsTokens(e) ==> (ValuesOf(value), answer) == Standard(ValuesOf(old(value)), e)
      ensures NoDup(ValuesOf(value))
    {
      hide ValuesOf, NoDup, Join, AppendAll, Without, Renamed, ReplaceFirst, Spliced, Unique, Split, Flatten, PutsTokens,
        Standard;
      answer := true;
      EditSurvives(value, e);
      TokensAreStandard(value, e);
      match e {
        case Add(tokens) => AddTokens(tokens);
        case Remove(gone) => RemoveTokens(gone);
        case Replace(from, to) => answer := ReplaceToken(from, to);
        case Toggle(token, force) => answer := ToggleToken(token, force);
      }
      ValuesAreTokenSet(value);
    }

    /** A run of edits is a run of set operations. */
    method Run(edits: seq<Edit>) returns (answers: seq<bool>)
      modifies this
      ensures (ValuesOf(value), answers) == EditedAll(ValuesOf(old(value)), edits)
      ensures NoDup(ValuesOf(value))
      decreases |edits|
    {
      hide ValuesOf, NoDup, Edited;
      ValuesAreTokenSet(value);
      if |edits| == 0 {
        return [];
      }
      var first := Apply(edits[0]);
      var more := Run(edits[1..]);
      return [first] + more;
    }
  }

  function EditedAll(ts: seq<string>, edits: seq<Edit>): (r: (seq<string>, seq<bool>))
    decreases |edits|
  {
    if edits == [] then (ts, [])
    else
      var (next, answer) := Edited(ts, edits[0]);
      var rest := EditedAll(next, edits[1..]);
      (rest.0, [answer] + rest.1)
  }

  lemma NothingUnique(seen: set<string>)
    ensures Unique([], seen) == []
    ensures forall u: seq<string> :: [] + u == u && u + [] == u
  {
  }

  lemma UniqueStep(all: seq<string>, i: nat, seen: set<string>)
    requires i < |all|
    ensures Unique(all[i..], seen) ==
            if all[i] in seen then Unique(all[i + 1..], seen) else [all[i]] + Unique(all[i + 1..], seen + {all[i]})
  {
    assert all[i..][1..] == all[i + 1..];
  }

  lemma AppendOne(ts: seq<string>, t: string)
    ensures AppendAll(ts, [t]) == Append(ts, t)
  {
    assert [t][1..] == [];
  }

  // ------------------------------------------------------------------
  // What is written is read as meant
  // ------------------------------------------------------------------

  lemma {:induction false} FlattenConcat(a: seq<string>, b: seq<string>)
    ensures Flatten(a + b) == Flatten(a) + Flatten(b)
  {
    hide Split;
    if a == [] {
      assert a + b == b;
    } else {
      assert (a + b)[1..] == a[1..] + b;
      FlattenConcat(a[1..], b);
    }
  }

  lemma {:induction false} FlattenHolds(ts: seq<string>, t: string, x: string)
    requires t in ts && x in Split(t)
    ensures x in Flatten(ts)
  {
    hide Split;
    if ts[0] != t {
      FlattenHolds(ts[1..], t, x);
    }
  }

  lemma {:induction false} UniqueSnoc(a: seq<string>, t: string, seen: set<string>)
    ensures Unique(a + [t], seen) == Unique(a, seen) + (if t in a || t in seen then [] else [t])
  {
    if a == [] {
      assert a + [t] == [t];
    } else {
      assert (a + [t])[1..] == a[1..] + [t];
      UniqueSnoc(a[1..], t, if a[0] in seen then seen else seen + {a[0]});
    }
  }

  /** Reading on adds the new tokens. */
  lemma {:induction false} UniqueConcat(a: seq<string>, b: seq<string>)
    ensures Unique(a + b, {}) == AppendAll(Unique(a, {}), b)
    decreases |b|
  {
    hide Unique;
    if b == [] {
      assert a + b == a;
    } else {
      assert a + b == a + [b[0]] + b[1..];
      UniqueSnoc(a, b[0], {});
      UniqueIsSet(a, {});
      assert Unique(a, {}) + [] == Unique(a, {});
      UniqueConcat(a + [b[0]], b[1..]);
    }
  }

  lemma {:induction false} AppendAllConcat(ts: seq<string>, a: seq<string>, b: seq<string>)
    ensures AppendAll(ts, a + b) == AppendAll(AppendAll(ts, a), b)
    decreases |a|
  {
    if a == [] {
      assert a + b == b;
    } else {
      assert (a + b)[1..] == a[1..] + b;
      AppendAllConcat(Append(ts, a[0]), a[1..], b);
    }
  }

  lemma {:induction false} AppendKnown(ts: seq<string>, more: seq<string>)
    requires forall x :: x in more ==> x in ts
    ensures AppendAll(ts, more) == ts
    decreases |more|
  {
    if more != [] {
      AppendKnown(ts, more[1..]);
    }
  }

  /** Appending strings to a list appends the tokens in them to the set it is read as. */
  lemma {:induction false} AddSurvives(ts: seq<string>, tokens: seq<string>)
    ensures Unique(Flatten(AppendAll(ts, tokens)), {}) == AppendAll(Unique(Flatten(ts), {}), Flatten(tokens))
    decreases |tokens|
  {
    hide Unique, Split;
    if tokens != [] {
      var t := tokens[0];
      var known := Unique(Flatten(ts), {});
      OneSurvives(ts, t);
      AddSurvives(Append(ts, t), tokens[1..]);
      AppendAllConcat(known, Split(t), Flatten(tokens[1..]));
    }
  }

  lemma OneSurvives(ts: seq<string>, t: string)
    ensures Unique(Flatten(Append(ts, t)), {}) == AppendAll(Unique(Flatten(ts), {}), Split(t))
  {
    hide Unique, Split, AppendAll;
    var known := Unique(Flatten(ts), {});
    if t in ts {
      UniqueIsSet(Flatten(ts), {});
      forall x | x in Split(t) ensures x in known {
        FlattenHolds(ts, t, x);
      }
      AppendKnown(known, Split(t));
    } else {
      FlattenConcat(ts, [t]);
      assert [t][1..] == [] && Split(t) + [] == Split(t);
      UniqueConcat(Flatten(ts), Split(t));
    }
  }

  lemma {:induction false} ReplaceSurvives(ts: seq<string>, from: string, to: string)
    requires AllTokens(ts)
    ensures Flatten(Renamed(ts, from, to)) == Spliced(ts, from, Split(to))
  {
    hide Split;
    if ts != [] {
      SplitToken(ts[0]);
      ReplaceSurvives(ts[1..], from, to);
      var t := if ts[0] == from then to else ts[0];
      assert ([t] + Renamed(ts[1..], from, to))[1..] == Renamed(ts[1..], from, to);
    }
  }

  lemma {:induction false} SplicedToken(ts: seq<string>, from: string, to: string)
    ensures Spliced(ts, from, [to]) == Renamed(ts, from, to)
  {
    if ts != [] {
      SplicedToken(ts[1..], from, to);
    }
  }

  lemma RemoveSurvives(ts: seq<string>, gone: seq<string>)
    requires NoDup(ts) && AllTokens(ts)
    ensures ValuesOf(Join(Without(ts, gone))) == Without(ts, gone)
  {
    hide ValuesOf, NoDup, Join, Without;
    TokensWithout(ts, gone);
    WithoutIsSet(ts, gone);
    ValuesOfJoin(Without(ts, gone));
  }

  /** A list of tokens is read as itself. */
  lemma TokenSet(ts: seq<string>)
    requires NoDup(ts) && AllTokens(ts)
    ensures Unique(Flatten(ts), {}) == ts
  {
    FlattenTokens(ts);
    UniqueKeepsSets(ts, {});
  }

  /** The lists the edits write are read as the edited sets. */
  lemma EditSurvives(value: string, e: Edit)
    ensures var ts := ValuesOf(value);
            match e
            case Add(tokens) => ValuesOf(Join(AppendAll(ts, tokens))) == Edited(ts, e).0
            case Remove(gone) => ValuesOf(Join(Without(ts, gone))) == Edited(ts, e).0
            case Replace(from, to) => ValuesOf(Join(Renamed(ts, from, to))) == Edited(ts, e).0
            case Toggle(token, _) =>
              && ValuesOf(Join(AppendAll(ts, [token]))) == AppendAll(ts, Split(token))
              && ValuesOf(Join(Without(ts, [token]))) == Without(ts, [token])
  {
    hide ValuesOf, NoDup, Join, AppendAll, Without, Renamed, Spliced, Flatten, Unique, Split;
    var ts := ValuesOf(value);
    ValuesAreTokenSet(value);
    TokenSet(ts);
    match e
    case Add(tokens) =>
      AddSurvives(ts, tokens);
      ValuesOfJoin(AppendAll(ts, tokens));
    case Remove(gone) => RemoveSurvives(ts, gone);
    case Replace(from, to) =>
      ReplaceSurvives(ts, from, to);
      ValuesOfJoin(Renamed(ts, from, to));
    case Toggle(token, _) =>
      AppendOne(ts, token);
      OneSurvives(ts, token);
      ValuesOfJoin(AppendAll(ts, [token]));
      RemoveSurvives(ts, [token]);
  }

  /** Edits that put in tokens are those of the standard. */
  lemma TokensAreStandard(value: string, e: Edit)
    ensures PutsTokens(e) ==> Edited(ValuesOf(value), e) == Standard(ValuesOf(value), e)
  {
    hide ValuesOf, NoDup, AppendAll, Without, Renamed, ReplaceFirst, Append, Spliced, Flatten, Unique, Split, IsToken;
    var ts := ValuesOf(value);
    ValuesAreTokenSet(value);
    match e
    case Add(tokens) => FlattenTokens(tokens);
    case Remove(_) =>
    case Replace(from, to) =>
      if IsToken(to) {
        SplitToken(to);
        SplicedToken(ts, from, to);
        RenamedReplaces(ts, from, to, {});
        if from !in ts {
          RenamedAbsent(ts, from, to);
          UniqueKeepsSets(ts, {});
        }
      }
    case Toggle(token, _) =>
      if IsToken(token) {
        SplitToken(token);
        AppendOne(ts, token);
      }
  }


  /** Tokens are written with single blanks between them. */
  lemma ThreeTokens()
    ensures Join(["a", "b", "c"]) == "a b c"
    ensures Standard(["a", "b", "c"], Replace("a", "c")).0 == ["c", "b"]
  {
    var ts: seq<string> := ["a", "b", "c"];
    assert ts[1..] == ["b", "c"] && ts[1..][1..] == ["c"] && ts[1..][1..][1..] == [];
    assert Join(ts[1..]) == "b" + " " + "c";
    assert ReplaceFirst([], "a", "c", true) == [];
    assert ReplaceFirst(ts[1..][1..], "a", "c", true) == [];
    assert ReplaceFirst(ts[1..], "a", "c", true) == ["b"];
  }


  // ------------------------------------------------------------------
  // What the operations of the standard do to the set
  // ------------------------------------------------------------------

  /** Tokens are added at the end, those that are there stay where they are. */
  lemma {:induction false} AddExtends(ts: seq<string>, more: seq<string>)
    ensures var r := AppendAll(ts, more); ts <= r && forall x :: x in r <==> x in ts || x in more
    decreases |more|
  {
    if more != [] {
      AddExtends(Append(ts, more[0]), more[1..]);
      assert more == [more[0]] + more[1..];
    }
  }

  /** Toggling answers whether the token is in the set afterwards: as it is forced, else if it was not before. */
  lemma ToggleSwitches(ts: seq<string>, token: string, force: Option<bool>)
    requires NoDup(ts)
    ensures var (r, on) := Standard(ts, Toggle(token, force));
            && (on <==> token in r) && (on <==> if force.Some? then force.value else token !in ts)
            && forall x :: x != token ==> (x in r <==> x in ts)
  {
    hide Without;
    WithoutIsSet(ts, [token]);
    AppendOne(ts, token);
    AddExtends(ts, [token]);
    var (r, on) := Standard(ts, Toggle(token, force));
    assert on ==> token in [token] && r == AppendAll(ts, [token]);
  }

  lemma {:induction false} WithoutAbsent(ts: seq<string>, gone: seq<string>)
    requires forall x :: x in gone ==> x !in ts
    ensures Without(ts, gone) == ts
  {
    if ts != [] {
      WithoutAbsent(ts[1..], gone);
      assert [ts[0]] + ts[1..] == ts;
    }
  }

  lemma {:induction false} WithoutJoins(a: seq<string>, b: seq<string>, gone: seq<string>)
    ensures Without(a + b, gone) == Without(a, gone) + Without(b, gone)
  {
    if a == [] {
      assert a + b == b;
    } else {
      assert (a + b)[1..] == a[1..] + b;
      WithoutJoins(a[1..], b, gone);
    }
  }

  /** Toggling in and out again leaves the set as it was. */
  lemma ToggleTwice(ts: seq<string>, token: string)
    requires token !in ts
    ensures Standard(Standard(ts, Toggle(token, None)).0, Toggle(token, None)) == (ts, false)
  {
    hide Without;
    var on := ts + [token];
    assert on[|ts|] == token;
    WithoutJoins(ts, [token], [token]);
    WithoutAbsent(ts, [token]);
    WithoutOne(token);
    assert ts + [] == ts;
  }

  lemma WithoutOne(token: string)
    ensures Without([token], [token]) == []
  {
    assert [token][1..] == [] && Without([], [token]) == [];
  }

  /** Nothing but the two tokens is touched by replacing one by the other. */
  lemma {:induction false} ReplaceLeavesOthers(ts: seq<string>, from: string, to: string, done: bool)
    ensures Without(ReplaceFirst(ts, from, to, done), [from, to]) == Without(ts, [from, to])
  {
    if ts != [] {
      var here := ts[0] == from || ts[0] == to;
      ReplaceLeavesOthers(ts[1..], from, to, done || here);
      var rest := ReplaceFirst(ts[1..], from, to, done || here);
      assert ([to] + rest)[1..] == rest && ([ts[0]] + rest)[1..] == rest && [] + rest == rest;
      assert forall u: seq<string> :: [] + u == u;
    }
  }

  /** The new token stands at the first place of either, once, and the old one is gone. */
  lemma {:induction false} ReplacePuts(ts: seq<string>, from: string, to: string, k: nat)
    requires k < |ts| && (ts[k] == from || ts[k] == to) && from !in ts[..k] && to !in ts[..k]
    ensures var r := ReplaceFirst(ts, from, to, false);
            k < |r| && r[k] == to && to !in r[..k] && to !in r[k + 1..] && (from != to ==> from !in r)
  {
    var r := ReplaceFirst(ts, from, to, false);
    if k == 0 {
      var rest := ReplaceFirst(ts[1..], from, to, true);
      assert r[1..] == rest;
      NoneLeft(ts[1..], from, to);
    } else {
      assert ts[..k][0] == ts[0] && ts[..k][1..] == ts[1..][..k - 1];
      ReplacePuts(ts[1..], from, to, k - 1);
      var rest := ReplaceFirst(ts[1..], from, to, false);
      assert r == [ts[0]] + rest && r[..k] == [ts[0]] + rest[..k - 1] && r[k + 1..] == rest[k..];
    }
  }

  lemma {:induction false} NoneLeft(ts: seq<string>, from: string, to: string)
    ensures var r := ReplaceFirst(ts, from, to, true); from !in r && to !in r
  {
    if ts != [] {
      NoneLeft(ts[1..], from, to);
    }
  }
}
