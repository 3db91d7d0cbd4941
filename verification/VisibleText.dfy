/**
 White space in extracted text (resiliparse-rs/src/parse/html/serialize.rs):
 runs of it become one blank, and nothing else of the text changes.
 */
module VisibleText {

  predicate IsBlank(c: char) {
    c == ' ' || c == '\t' || c == '\n' || c == '\r' || c == '\U{0C}'
  }

  function Blanked(c: char): char {
    if IsBlank(c) then ' ' else c
  }

  /** The text that is left when a blank behind `last` is dropped if that is a blank, too. */
  function Squeeze(s: string, last: char): (r: string) {
    if s == [] then []
    else (if Blanked(s[0]) == ' ' && last == ' ' then [] else [Blanked(s[0])]) + Squeeze(s[1..], Blanked(s[0]))
  }

  /** One pass over the text that remembers the last character, kept or not. */
  method CollapseWhitespace(s: string) returns (r: string)
    ensures r == Squeeze(s, 'x')
  {
    var lastChar := 'x';
    r := [];
    for i := 0 to |s|
      invariant r + Squeeze(s[i..], lastChar) == Squeeze(s, 'x')
    {
      var c := Blanked(s[i]);
      var keep := c != ' ' || lastChar != ' ';
      assert s[i..][1..] == s[i + 1..];
      assert [] + Squeeze(s[i + 1..], c) == Squeeze(s[i + 1..], c);
      lastChar := c;
      if keep {
        r := r + [c];
      }
    }
  }

  /** The only white space is single blanks; `last` stands in front of the text. */
  predicate Collapsed(s: string, last: char) {
    s != [] ==> (IsBlank(s[0]) ==> s[0] == ' ' && last != ' ') && Collapsed(s[1..], s[0])
  }

  /** What is not white space. */
  function Visible(s: string): (r: string) {
    if s == [] then [] else (if IsBlank(s[0]) then [] else [s[0]]) + Visible(s[1..])
  }

  lemma {:induction false} SqueezeCollapses(s: string, last: char)
    ensures Collapsed(Squeeze(s, last), last)
  {
    if s != [] {
      var c, rest := Blanked(s[0]), Squeeze(s[1..], Blanked(s[0]));
      SqueezeCollapses(s[1..], c);
      assert [] + rest == rest && ([c] + rest)[1..] == rest;
    }
  }

  /** Nothing but white space is lost, and nothing changes its place. */
  lemma {:induction false} SqueezeKeepsVisible(s: string, last: char)
    ensures Visible(Squeeze(s, last)) == Visible(s)
  {
    if s != [] {
      SqueezeKeepsVisible(s[1..], Blanked(s[0]));
      var rest := Squeeze(s[1..], Blanked(s[0]));
      assert [] + rest == rest;
    }
  }

  /** Exactly the collapsed texts are left alone. */
  lemma {:induction false} SqueezeIsIdentityIff(s: string, last: char)
    ensures Squeeze(s, last) == s <==> Collapsed(s, last)
  {
    SqueezeCollapses(s, last);
    if s != [] && Collapsed(s, last) {
      SqueezeIsIdentityIff(s[1..], s[0]);
      assert [s[0]] + s[1..] == s;
    }
  }

  /** Collapsing twice is collapsing once. */
  lemma SqueezeTwice(s: string)
    ensures Squeeze(Squeeze(s, 'x'), 'x') == Squeeze(s, 'x')
  {
    SqueezeCollapses(s, 'x');
    SqueezeIsIdentityIff(Squeeze(s, 'x'), 'x');
  }

  /** Exactly blank, tab, line feed, form feed and carriage return are white space. */
  lemma BlanksAre(c: char)
    ensures IsBlank(c) <==> c in " \t\n\r\U{0C}"
  {
    var all := " \t\n\r\U{0C}";
    assert all[0] == ' ' && all[1] == '\t' && all[2] == '\n' && all[3] == '\r' && all[4] == '\U{0C}';
  }

  /** A run of them, of any kinds, becomes one blank, or none behind a blank. */
  lemma {:induction false} RunIsOneBlank(run: string, s: string, last: char)
    requires run != [] && forall i :: 0 <= i < |run| ==> run[i] in " \t\n\r\U{0C}"
    ensures Squeeze(run + s, last) == (if last == ' ' then "" else " ") + Squeeze(s, ' ')
    decreases |run|
  {
    var c, more := run[0], run[1..] + s;
    BlanksAre(c);
    assert (run + s)[1..] == more;
    if |run| == 1 {
      assert more == s;
    } else {
      RunIsOneBlank(run[1..], s, ' ');
      assert [] + Squeeze(s, ' ') == Squeeze(s, ' ');
    }
  }

  /** Anything else is kept. */
  lemma VisibleIsKept(c: char, s: string, last: char)
    requires c !in " \t\n\r\U{0C}"
    ensures Squeeze([c] + s, last) == [c] + Squeeze(s, c)
  {
    BlanksAre(c);
    assert ([c] + s)[1..] == s;
  }
}
