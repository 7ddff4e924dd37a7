/** The template step of `main`: the `{{name}}`, `{{version}}`, `{{year}}`,
    `{{authors}}` replace chain, the two count-to-flag conversions and the
    choice of the license file name. */
module Render {
  import opened Wrappers
  import opened Package

  /** `str::replace`: every non-overlapping occurrence of `pat`, found left
      to right, is replaced by `rep`. An empty pattern matches before every
      character and at the end. */
  function ReplaceAll(s: string, pat: string, rep: string): string
    decreases |s|
  {
    if |pat| == 0 then
      if |s| == 0 then rep else rep + [s[0]] + ReplaceAll(s[1..], pat, rep)
    else if |s| < |pat| then s
    else if s[..|pat|] == pat then rep + ReplaceAll(s[|pat|..], pat, rep)
    else [s[0]] + ReplaceAll(s[1..], pat, rep)
  }

  predicate OccursAt(s: string, pat: string, i: nat)
  {
    i + |pat| <= |s| && s[i..i + |pat|] == pat
  }

  /** `pat` appears somewhere in `s`. */
  ghost predicate Occurs(s: string, pat: string)
  {
    exists i: nat :: OccursAt(s, pat, i)
  }

  /** Replacing a pattern that does not occur leaves the text as it is. */
  lemma {:induction false} ReplaceAbsent(s: string, pat: string, rep: string)
    requires |pat| > 0 && !Occurs(s, pat)
    ensures ReplaceAll(s, pat, rep) == s
    decreases |s|
  {
    if |s| >= |pat| {
      assert !OccursAt(s, pat, 0);
      forall i: nat | OccursAt(s[1..], pat, i)
        ensures OccursAt(s, pat, i + 1)
      {
        assert s[i + 1..i + 1 + |pat|] == s[1..][i..i + |pat|];
      }
      ReplaceAbsent(s[1..], pat, rep);
      assert [s[0]] + s[1..] == s;
    }
  }

  /** The four placeholders of the license template. */
  datatype Placeholder = Name | Version | Year | Authors

  function Token(p: Placeholder): string
  {
    match p
    case Name => "{{name}}"
    case Version => "{{version}}"
    case Year => "{{year}}"
    case Authors => "{{authors}}"
  }

  /** The license text: the template with the four placeholders replaced in
      the fixed order name, version, year, authors. */
  function RenderLicense(template: string, info: PackageInfo, year: string): string
  {
    var afterName := ReplaceAll(template, Token(Name), info.name);
    var afterVersion := ReplaceAll(afterName, Token(Version), info.version);
    var afterYear := ReplaceAll(afterVersion, Token(Year), year);
    ReplaceAll(afterYear, Token(Authors), info.authors)
  }

  /** A template in which none of the four tokens occurs is returned unchanged. */
  lemma RenderWithoutTokens(template: string, info: PackageInfo, year: string)
    requires forall p: Placeholder :: !Occurs(template, Token(p))
    ensures RenderLicense(template, info, year) == template
  {
    ReplaceAbsent(template, Token(Name), info.name);
    ReplaceAbsent(template, Token(Version), info.version);
    ReplaceAbsent(template, Token(Year), year);
    ReplaceAbsent(template, Token(Authors), info.authors);
  }

  /** The replacements are applied one after the other, so a placeholder
      carried in by an earlier value is filled by a later one: a name of
      `{{year}}` renders as the year. */
  lemma RenderIsSequential(info: PackageInfo, year: string)
    requires info.name == Token(Year)
    ensures RenderLicense(Token(Name), info, year) == ReplaceAll(year, Token(Authors), info.authors)
  {
    assert Token(Name)[..|Token(Name)|] == Token(Name);
    assert ReplaceAll(Token(Name), Token(Name), info.name) == info.name + ReplaceAll("", Token(Name), info.name);
    assert ReplaceAll(Token(Year), Token(Version), info.version) == Token(Year);
    assert Token(Year)[..|Token(Year)|] == Token(Year);
    assert ReplaceAll(Token(Year), Token(Year), year) == year + ReplaceAll("", Token(Year), year);
    assert year + "" == year;
  }

  /** Text that contains no `{` and so cannot hold, or begin, a placeholder. */
  predicate Plain(t: string)
  {
    forall k :: 0 <= k < |t| ==> t[k] != '{'
  }

  /** A template seen as literal text interleaved with placeholders. */
  datatype Segment = Text(t: string) | Slot(p: Placeholder)

  predicate PlainSegments(segs: seq<Segment>)
  {
    forall k :: 0 <= k < |segs| && segs[k].Text? ==> Plain(segs[k].t)
  }

  /** The template text a list of segments spells out. */
  function Spell(segs: seq<Segment>): string
  {
    if |segs| == 0 then ""
    else SpellSegment(segs[0]) + Spell(segs[1..])
  }

  function SpellSegment(g: Segment): string
  {
    match g
    case Text(t) => t
    case Slot(p) => Token(p)
  }

  function ValueOf(p: Placeholder, info: PackageInfo, year: string): string
  {
    match p
    case Name => info.name
    case Version => info.version
    case Year => year
    case Authors => info.authors
  }

  /** Reference rendering, independent of `ReplaceAll`: every placeholder
      segment is filled with its value in a single pass. */
  function Fill(segs: seq<Segment>, info: PackageInfo, year: string): string
  {
    if |segs| == 0 then ""
    else FillSegment(segs[0], info, year) + Fill(segs[1..], info, year)
  }

  function FillSegment(g: Segment, info: PackageInfo, year: string): string
  {
    match g
    case Text(t) => t
    case Slot(p) => ValueOf(p, info, year)
  }

  /** Every `p` slot turned into the literal text `v`. */
  function Subst(segs: seq<Segment>, p: Placeholder, v: string): (r: seq<Segment>)
    ensures |r| == |segs|
    ensures PlainSegments(segs) && Plain(v) ==> PlainSegments(r)
  {
    if |segs| == 0 then []
    else [SubstSegment(segs[0], p, v)] + Subst(segs[1..], p, v)
  }

  function SubstSegment(g: Segment, p: Placeholder, v: string): Segment
  {
    if g == Slot(p) then Text(v) else g
  }

  /** Plain text in front of the rest passes through a placeholder replacement untouched. */
  lemma {:induction false} ReplacePastPlain(t: string, rest: string, pat: string, rep: string)
    requires Plain(t) && |pat| > 0 && pat[0] == '{'
    ensures ReplaceAll(t + rest, pat, rep) == t + ReplaceAll(rest, pat, rep)
    decreases |t|
  {
    if |t| == 0 {
      assert t + rest == rest;
    } else {
      ReplacePastPlain(t[1..], rest, pat, rep);
      PlainStep(t[0], t[1..], rest, pat, rep);
      assert [t[0]] + t[1..] == t;
    }
  }

  /** One more character other than `{` in front keeps a pass-through. */
  lemma PlainStep(c: char, u: string, rest: string, pat: string, rep: string)
    requires |pat| > 0 && pat[0] == '{' && c != '{'
    requires ReplaceAll(u + rest, pat, rep) == u + ReplaceAll(rest, pat, rep)
    ensures ReplaceAll([c] + u + rest, pat, rep) == [c] + u + ReplaceAll(rest, pat, rep)
  {
    ConsAssoc(c, u, rest);
    ConsAssoc(c, u, ReplaceAll(rest, pat, rep));
    KeepPlainHead(c, u + rest, pat, rep);
  }

  /** Concatenation after one leading character regroups freely. */
  lemma ConsAssoc(c: char, u: string, v: string)
    ensures [c] + u + v == [c] + (u + v)
  {
  }

  /** A character other than `{` in front is kept as it is. */
  lemma KeepPlainHead(c: char, x: string, pat: string, rep: string)
    requires |pat| > 0 && pat[0] == '{' && c != '{'
    ensures ReplaceAll([c] + x, pat, rep) == [c] + ReplaceAll(x, pat, rep)
  {
    MismatchAt([c] + x, pat, 0);
    KeepHead(c, x, pat, rep);
  }

  lemma ReplaceToken(p: Placeholder, rest: string, v: string)
    ensures ReplaceAll(Token(p) + rest, Token(p), v) == v + ReplaceAll(rest, Token(p), v)
  {
  }

  /** Where the pattern does not start, the first character is kept as it is. */
  lemma ReplaceKeepsFirst(s: string, pat: string, rep: string)
    requires |pat| > 0 && |s| > 0
    requires |s| < |pat| || s[..|pat|] != pat
    ensures ReplaceAll(s, pat, rep) == [s[0]] + ReplaceAll(s[1..], pat, rep)
  {
  }

  /** A text that differs from the pattern at some position inside both
      does not start with the pattern. */
  lemma MismatchAt(s: string, pat: string, i: nat)
    requires i < |pat| && i < |s| && s[i] != pat[i]
    ensures |s| < |pat| || s[..|pat|] != pat
  {
    assert |s| < |pat| || s[..|pat|][i] == s[i];
  }

  /** A character followed by a text that does not start the pattern is kept. */
  lemma KeepHead(c: char, t: string, pat: string, rep: string)
    requires |pat| > 0
    requires |t| + 1 < |pat| || ([c] + t)[..|pat|] != pat
    ensures ReplaceAll([c] + t, pat, rep) == [c] + ReplaceAll(t, pat, rep)
  {
    assert ([c] + t)[1..] == t;
    ReplaceKeepsFirst([c] + t, pat, rep);
  }

  /** A word `{` + rest of it, whose rest is plain and differs from the
      pattern's second character, passes through a replacement untouched. */
  lemma {:induction false} ReplacePastBrace(w: string, rest: string, pat: string, v: string)
    requires |w| >= 2 && |pat| >= 2
    requires pat[0] == '{' && w[1] != pat[1] && Plain(w[1..])
    ensures ReplaceAll(w + rest, pat, v) == w + ReplaceAll(rest, pat, v)
  {
    var t := w[1..] + rest;
    var after := ReplaceAll(rest, pat, v);
    assert ReplaceAll(w + rest, pat, v) == [w[0]] + ReplaceAll(t, pat, v) by {
      assert w + rest == [w[0]] + t;
      MismatchAt([w[0]] + t, pat, 1);
      KeepHead(w[0], t, pat, v);
    }
    assert ReplaceAll(t, pat, v) == w[1..] + after by {
      ReplacePastPlain(w[1..], rest, pat, v);
    }
    assert [w[0]] + (w[1..] + after) == w + after;
  }

  /** A word that opens with `{{` and then differs from the pattern passes
      through a replacement untouched when the rest of it is plain. */
  lemma {:induction false} ReplacePastOtherWord(w: string, rest: string, pat: string, v: string)
    requires |w| >= 3 && |pat| >= 3
    requires pat[0] == '{' && pat[1] == '{' && w[2] != pat[2] && Plain(w[2..])
    ensures ReplaceAll(w + rest, pat, v) == w + ReplaceAll(rest, pat, v)
  {
    var t := w[1..] + rest;
    var after := ReplaceAll(rest, pat, v);
    assert ReplaceAll(w + rest, pat, v) == [w[0]] + ReplaceAll(t, pat, v) by {
      assert w + rest == [w[0]] + t;
      MismatchAt([w[0]] + t, pat, 2);
      KeepHead(w[0], t, pat, v);
    }
    assert ReplaceAll(t, pat, v) == w[1..] + after by {
      assert w[1..][1..] == w[2..];
      ReplacePastBrace(w[1..], rest, pat, v);
    }
    assert [w[0]] + (w[1..] + after) == w + after;
  }

  /** Tokens open with `{{`, are plain after it, and differ at their third character. */
  lemma TokenShape(q: Placeholder, p: Placeholder)
    ensures |Token(q)| >= 3 && Token(q)[0] == '{' && Token(q)[1] == '{'
    ensures Plain(Token(q)[2..])
    ensures q != p ==> Token(q)[2] != Token(p)[2]
  {
  }

  /** The token of another placeholder is left in place. */
  lemma ReplacePastOtherToken(q: Placeholder, p: Placeholder, rest: string, v: string)
    requires q != p
    ensures ReplaceAll(Token(q) + rest, Token(p), v) == Token(q) + ReplaceAll(rest, Token(p), v)
  {
    TokenShape(q, p);
    TokenShape(p, q);
    ReplacePastOtherWord(Token(q), rest, Token(p), v);
  }

  /** Replacing one placeholder in a template of plain text and tokens is
      the same as substituting its slots. */
  lemma {:induction false} ReplaceSlots(segs: seq<Segment>, p: Placeholder, v: string)
    requires PlainSegments(segs)
    ensures ReplaceAll(Spell(segs), Token(p), v) == Spell(Subst(segs, p, v))
  {
    if |segs| == 0 {
      assert ReplaceAll("", Token(p), v) == "";
    } else {
      var rest := Spell(segs[1..]);
      assert PlainSegments(segs[1..]);
      ReplaceSlots(segs[1..], p, v);
      match segs[0]
      case Text(t) =>
        assert Plain(t);
        ReplacePastPlain(t, rest, Token(p), v);
      case Slot(q) =>
        if q == p {
          ReplaceToken(p, rest, v);
        } else {
          ReplacePastOtherToken(q, p, rest, v);
        }
    }
  }

  function SubstAll(segs: seq<Segment>, info: PackageInfo, year: string): seq<Segment>
  {
    Subst(Subst(Subst(Subst(segs, Name, info.name), Version, info.version), Year, year),
          Authors, info.authors)
  }

  lemma SubstAllUnfold(segs: seq<Segment>, info: PackageInfo, year: string)
    requires |segs| > 0
    ensures |SubstAll(segs, info, year)| > 0
    ensures SpellSegment(SubstAll(segs, info, year)[0]) == FillSegment(segs[0], info, year)
    ensures SubstAll(segs, info, year)[1..] == SubstAll(segs[1..], info, year)
  {
  }

  /** Substituting all four placeholders spells out the reference rendering. */
  lemma {:induction false} SubstAllIsFill(segs: seq<Segment>, info: PackageInfo, year: string)
    ensures Spell(SubstAll(segs, info, year)) == Fill(segs, info, year)
  {
    if |segs| > 0 {
      SubstAllUnfold(segs, info, year);
      SubstAllIsFill(segs[1..], info, year);
    }
  }

  /** The replace chain fills a template exactly as direct substitution
      does, provided neither its literal text nor the values contain `{`:
      every placeholder is replaced and nothing else changes. */
  lemma {:induction false} RenderFillsTemplate(segs: seq<Segment>, info: PackageInfo, year: string)
    requires PlainSegments(segs)
    requires Plain(info.name) && Plain(info.version) && Plain(year) && Plain(info.authors)
    ensures RenderLicense(Spell(segs), info, year) == Fill(segs, info, year)
  {
    var s1 := Subst(segs, Name, info.name);
    var s2 := Subst(s1, Version, info.version);
    var s3 := Subst(s2, Year, year);
    ReplaceSlots(segs, Name, info.name);
    ReplaceSlots(s1, Version, info.version);
    ReplaceSlots(s2, Year, year);
    ReplaceSlots(s3, Authors, info.authors);
    SubstAllIsFill(segs, info, year);
  }

  /** Rust's occurrence count of a flag (`get_one::<u8>`) read as a switch:
      off when absent or zero, on otherwise. */
  function FlagOn(count: Option<nat>): (on: bool)
    ensures on <==> count.Some? && count.value >= 1
  {
    match count
    case None => false
    case Some(0) => false
    case Some(1) => true
    case Some(_) => true
  }

  /** The license file's name for the `J` prefix setting. */
  function LicenseFileName(prefix: bool): string
  {
    if prefix then "JLICENSE.md" else "LICENSE.md"
  }

  /** The generated file is `JLICENSE.md` exactly when the prefix flag was
      given at least once, and `LICENSE.md` otherwise. */
  lemma FileNameFromCount(count: Option<nat>)
    ensures LicenseFileName(FlagOn(count)) == "JLICENSE.md" <==> count.Some? && count.value >= 1
    ensures LicenseFileName(FlagOn(count)) == "LICENSE.md" <==> count.None? || count.value == 0
  {
  }
}
