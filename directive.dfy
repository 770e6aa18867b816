/**
 * The thebe directive: the FORMAT pattern as a deterministic recognizer, and the
 * parse-and-default step that turns its groups into a Request.
 *
 * FORMAT is `^(\s+)?(?P<src>\S+)(\s+)?(cells\[(?P<start>-?[0-9]*):(?P<end>-?[0-9]*)\])?`
 * `(\s+)?(language\[(?P<language>-?[a-z0-9\+\-]*)\])?(\s+)?$`. A Layout records how a
 * text splits along that pattern; Spell puts the pieces back together.
 */
module Directive {
  import opened Wrappers
  import opened Text

  /** The raw `start` and `end` groups of a `cells[start:end]` clause. */
  datatype Range = Range(start: string, end: string)

  /** A text cut along FORMAT: leading blanks, source token, gaps, optional clauses, trailing blanks. */
  datatype Layout = Layout(
    lead: string,
    src: string,
    gap1: string,
    cells: Option<Range>,
    gap2: string,
    language: Option<string>,
    trail: string)

  /** The parsed request of one `{% thebe ... %}` occurrence, defaults applied. */
  datatype Request = Request(src: string, start: int, end: Option<int>, language: Option<string>)

  /** The errors the parse step raises (both are Python ValueErrors). */
  datatype Error =
    | FormatMismatch(message: string)  // the text does not match FORMAT (thebe.py raises ValueError)
    | InvalidLiteral(literal: string)  // int() refused an index text (also a ValueError)

  const Syntax := "{% thebe /path/to/notebook.ipynb [ cells[start:end] ] [ language[language] ] %}"
  const SyntaxMessage := "Error processing input, expected syntax: " + Syntax

  function CellsText(c: Option<Range>): string {
    match c
    case None => []
    case Some(r) => "cells[" + r.start + ":" + r.end + "]"
  }

  function LanguageText(x: Option<string>): string {
    match x
    case None => []
    case Some(v) => "language[" + v + "]"
  }

  /** Everything after the source token. */
  function After(l: Layout): string {
    l.gap1 + (CellsText(l.cells) + (l.gap2 + (LanguageText(l.language) + l.trail)))
  }

  /** The text a layout stands for. */
  function Spell(l: Layout): string {
    l.lead + (l.src + After(l))
  }

  /** Each piece matches its part of FORMAT. */
  predicate Admissible(l: Layout) {
    && All(l.lead, IsSpace)
    && l.src != [] && All(l.src, IsToken)
    && All(l.gap1, IsSpace)
    && (l.cells.Some? ==> IsIndexText(l.cells.value.start) && IsIndexText(l.cells.value.end))
    && All(l.gap2, IsSpace)
    && (l.language.Some? ==> All(l.language.value, IsLanguageChar))
    && All(l.trail, IsSpace)
  }

  /** The source token is the whole first token: what follows it is empty or starts with a blank. */
  predicate Maximal(l: Layout) {
    StartsOutside(After(l), IsToken)
  }

  /** The way the recognizer itself distributes blanks when a clause is absent. */
  predicate Normal(l: Layout) {
    && (l.cells.None? ==> l.gap2 == [])
    && (l.language.None? ==> l.trail == [])
  }

  lemma Cut(s: string, k: nat)
    requires k <= |s|
    ensures s == s[..k] + s[k..]
  {
  }

  lemma Assoc(a: string, b: string, c: string)
    ensures (a + b) + c == a + (b + c)
  {
  }

  lemma Head(s: string, c: char)
    requires s != [] && s[0] == c
    ensures s == [c] + s[1..]
  {
  }

  lemma Prefix(a: string, b: string)
    ensures (a + b)[..|a|] == a
  {
  }

  lemma CellsSpelled(s: string, start: string, end: string, rest: string)
    requires |s| >= 6 && s[..6] == "cells["
    requires s[6..] == start + ([':'] + (end + ([']'] + rest)))
    ensures s == CellsText(Some(Range(start, end))) + rest
  {
    Cut(s, 6);
  }

  /** The length of an index text `-?[0-9]*` at the start of `s` that is followed by `c`. */
  function IndexBefore(s: string, c: char): (r: Option<nat>)
    ensures r.Some? ==> r.value < |s| && IsIndexText(s[..r.value]) && s[r.value] == c
  {
    var n := IndexRun(s);
    if n < |s| && s[n] == c then Some(n) else None
  }

  lemma Around(s: string, k: nat)
    requires k < |s|
    ensures s == s[..k] + ([s[k]] + s[k + 1..])
  {
  }

  /** The clause `cells[start:end]` at the start of `s`, if it is there. */
  function CellsClause(s: string): (r: Option<Range>)
    ensures r.Some? ==> IsIndexText(r.value.start) && IsIndexText(r.value.end)
    ensures |CellsText(r)| <= |s| && s[..|CellsText(r)|] == CellsText(r)
  {
    if |s| < 6 || s[..6] != "cells[" then None
    else
      var s1 := s[6..];
      match IndexBefore(s1, ':')
      case None => None
      case Some(i) =>
        var s2 := s1[i + 1..];
        match IndexBefore(s2, ']')
        case None => None
        case Some(j) =>
          var r := Range(s1[..i], s2[..j]);
          Around(s1, i);
          Around(s2, j);
          CellsSpelled(s, r.start, r.end, s2[j + 1..]);
          Prefix(CellsText(Some(r)), s2[j + 1..]);
          Some(r)
  }

  /** The clause `language[x]` at the start of `s`, if it is there. */
  function LanguageClause(s: string): (r: Option<string>)
    ensures r.Some? ==> All(r.value, IsLanguageChar)
    ensures |LanguageText(r)| <= |s| && s[..|LanguageText(r)|] == LanguageText(r)
  {
    if |s| < 9 || s[..9] != "language[" then None
    else
      var s1 := s[9..];
      var x := s1[..Run(s1, IsLanguageChar)];
      var s2 := s1[|x|..];
      if s2 == [] || s2[0] != ']' then None
      else
        var text := "language[" + x + "]";
        assert s[..|text|] == text by {
          var rest := s2[1..];
          Head(s2, ']');
          Cut(s1, |x|);
          Cut(s, 9);
          assert s == "language[" + (x + ([']'] + rest));
          Prefix(text, rest);
        }
        Some(x)
  }

  /** The pieces of FORMAT after the first gap: cells clause, blanks, language clause, blanks. */
  datatype Rest = Rest(cells: Option<Range>, gap2: string, language: Option<string>, trail: string)

  function RestText(t: Rest): string {
    CellsText(t.cells) + (t.gap2 + (LanguageText(t.language) + t.trail))
  }

  predicate RestAdmissible(t: Rest) {
    && (t.cells.Some? ==> IsIndexText(t.cells.value.start) && IsIndexText(t.cells.value.end))
    && All(t.gap2, IsSpace)
    && (t.language.Some? ==> All(t.language.value, IsLanguageChar))
    && All(t.trail, IsSpace)
  }

  function RestOf(l: Layout): Rest {
    Rest(l.cells, l.gap2, l.language, l.trail)
  }

  /** `(cells\[...\])?(\s+)?(language\[...\])?(\s+)?$` read greedily from the start of `s`. */
  function MatchRest(s: string): (r: Option<Rest>)
    ensures r.Some? ==> RestAdmissible(r.value) && RestText(r.value) == s
  {
    var cells := CellsClause(s);
    var s4 := s[|CellsText(cells)|..];
    var gap2 := s4[..Run(s4, IsSpace)];
    var s5 := s4[|gap2|..];
    var language := LanguageClause(s5);
    var s6 := s5[|LanguageText(language)|..];
    var trail := s6[..Run(s6, IsSpace)];
    if |trail| != |s6| then None
    else
      Cut(s, |CellsText(cells)|);
      Cut(s4, |gap2|);
      Cut(s5, |LanguageText(language)|);
      assert s6 == trail;
      Some(Rest(cells, gap2, language, trail))
  }

  /**
   * FORMAT.search(markup): the layout of a matching text, or None. Each part is
   * taken greedily from left to right; the source token is the whole first token.
   */
  function Match(s: string): (r: Option<Layout>)
    ensures r.Some? ==> Admissible(r.value) && Maximal(r.value) && Spell(r.value) == s
  {
    var lead := s[..Run(s, IsSpace)];
    var s1 := s[|lead|..];
    var src := s1[..Run(s1, IsToken)];
    if src == [] then None
    else
      var s2 := s1[|src|..];
      var gap1 := s2[..Run(s2, IsSpace)];
      var s3 := s2[|gap1|..];
      match MatchRest(s3)
      case None => None
      case Some(t) =>
        var l := Layout(lead, src, gap1, t.cells, t.gap2, t.language, t.trail);
        assert RestText(t) == RestText(RestOf(l));
        Cut(s, |lead|);
        Cut(s1, |src|);
        Cut(s2, |gap1|);
        assert After(l) == s2;
        Some(l)
  }

  /** The groups `src`, `start`/`end` and `language` of two layouts agree. */
  predicate SameGroups(a: Layout, b: Layout) {
    a.src == b.src && a.cells == b.cells && a.language == b.language
  }

  lemma LiteralIsToken(t: string)
    requires t == "cells[" || t == ":" || t == "]" || t == "language["
    ensures All(t, IsToken)
  {
  }

  lemma CellsTextIsToken(c: Option<Range>)
    requires c.Some? ==> IsIndexText(c.value.start) && IsIndexText(c.value.end)
    ensures All(CellsText(c), IsToken)
  {
    if c.Some? {
      var r := c.value;
      IndexTextIsToken(r.start);
      IndexTextIsToken(r.end);
      LiteralIsToken("cells[");
      LiteralIsToken(":");
      LiteralIsToken("]");
      AllConcat("cells[", r.start, IsToken);
      AllConcat("cells[" + r.start, ":", IsToken);
      AllConcat("cells[" + r.start + ":", r.end, IsToken);
      AllConcat("cells[" + r.start + ":" + r.end, "]", IsToken);
    }
  }

  lemma LanguageTextIsToken(x: Option<string>)
    requires x.Some? ==> All(x.value, IsLanguageChar)
    ensures All(LanguageText(x), IsToken)
  {
    if x.Some? {
      assert All(x.value, IsToken);
      LiteralIsToken("language[");
      LiteralIsToken("]");
      AllConcat("language[", x.value, IsToken);
      AllConcat("language[" + x.value, "]", IsToken);
    }
  }

  /** Moves blanks into the gaps the recognizer uses when a clause is absent; the text does not change. */
  function Normalize(l: Layout): (n: Layout)
    ensures Normal(n) && SameGroups(n, l)
    ensures n.lead == l.lead && After(n) == After(l) && Spell(n) == Spell(l)
    ensures Admissible(l) ==> Admissible(n)
  {
    var m := if l.cells.None? then l.(gap1 := l.gap1 + l.gap2, gap2 := []) else l;
    assert After(m) == After(l);
    AllConcat(l.gap1, l.gap2, IsSpace);
    if m.language.Some? then m
    else if m.cells.Some? then
      AllConcat(m.gap2, m.trail, IsSpace);
      m.(gap2 := m.gap2 + m.trail, trail := [])
    else
      AllConcat(m.gap1, m.trail, IsSpace);
      m.(gap1 := m.gap1 + m.trail, trail := [])
  }

  lemma CellsTextShape(r: Range, rest: string)
    ensures CellsText(Some(r)) + rest == "cells[" + (r.start + ([':'] + (r.end + ([']'] + rest))))
  {
  }

  /** The cells recognizer finds exactly the clause that was spelled. */
  lemma CellsClauseOf(c: Option<Range>, rest: string)
    requires c.Some? ==> IsIndexText(c.value.start) && IsIndexText(c.value.end)
    requires c.None? ==> rest == [] || rest[0] != 'c'
    ensures CellsClause(CellsText(c) + rest) == c
  {
    match c
    case None =>
      assert CellsText(c) + rest == rest;
      if |rest| >= 6 {
        assert rest[..6][0] == rest[0];
      }
    case Some(r) =>
      CellsClauseOfSome(r, rest);
  }

  lemma CellsClauseOfSome(r: Range, rest: string)
    requires IsIndexText(r.start) && IsIndexText(r.end)
    ensures CellsClause(CellsText(Some(r)) + rest) == Some(r)
  {
    var s2 := r.end + ([']'] + rest);
    var s1 := r.start + ([':'] + s2);
    CellsTextParts(r, rest);
    IndexRunOf(r.start, [':'] + s2);
    IndexRunOf(r.end, [']'] + rest);
    CellsClauseStep(CellsText(Some(r)) + rest, s1, |r.start|, s2, |r.end|);
  }

  /** Where the pieces of a spelled cells clause lie. */
  lemma CellsTextParts(r: Range, rest: string)
    ensures var s2 := r.end + ([']'] + rest);
      var s1 := r.start + ([':'] + s2);
      var s := CellsText(Some(r)) + rest;
      && |s| >= 6 && s[..6] == "cells[" && s[6..] == s1
      && s1[..|r.start|] == r.start && |r.start| < |s1| && s1[|r.start|] == ':' && s1[|r.start| + 1..] == s2
      && s2[..|r.end|] == r.end && |r.end| < |s2| && s2[|r.end|] == ']'
  {
    var s2 := r.end + ([']'] + rest);
    var s1 := r.start + ([':'] + s2);
    CellsTextShape(r, rest);
    assert s1[|r.start|..] == [':'] + s2;
    assert s2[|r.end|..] == [']'] + rest;
  }

  /** One successful run of the cells recognizer, stated on its intermediate texts. */
  lemma CellsClauseStep(s: string, s1: string, i: nat, s2: string, j: nat)
    requires |s| >= 6 && s[..6] == "cells[" && s[6..] == s1
    requires IndexBefore(s1, ':') == Some(i) && s1[i + 1..] == s2
    requires IndexBefore(s2, ']') == Some(j)
    ensures CellsClause(s) == Some(Range(s1[..i], s2[..j]))
  {
  }

  /** The language recognizer finds exactly the clause that was spelled. */
  lemma LanguageClauseOf(x: Option<string>, rest: string)
    requires x.Some? ==> All(x.value, IsLanguageChar)
    requires x.None? ==> rest == [] || rest[0] != 'l'
    ensures LanguageClause(LanguageText(x) + rest) == x
  {
    var s := LanguageText(x) + rest;
    match x
    case None =>
      assert s == rest;
      if |s| >= 9 {
        assert s[..9][0] == s[0];
      }
    case Some(v) =>
      var s1 := v + ([']'] + rest);
      assert |s| >= 9 && s[..9] == "language[" && s[9..] == s1;
      assert Run(s1, IsLanguageChar) == |v| by {
        RunOf(v, [']'] + rest, IsLanguageChar);
      }
      assert s1[..|v|] == v && s1[|v|..] == [']'] + rest;
      LanguageClauseStep(s, s1, |v|);
  }

  /** One successful run of the language recognizer, stated on its intermediate texts. */
  lemma LanguageClauseStep(s: string, s1: string, k: nat)
    requires |s| >= 9 && s[..9] == "language[" && s[9..] == s1
    requires Run(s1, IsLanguageChar) == k && k < |s1| && s1[k] == ']'
    ensures LanguageClause(s) == Some(s1[..k])
  {
  }

  /** On the tail of a layout in the recognizer's own form, the tail recognizer gives back that tail. */
  lemma MatchRestOf(t: Rest)
    requires RestAdmissible(t)
    requires t.cells.None? ==> t.gap2 == []
    requires t.language.None? ==> t.trail == []
    ensures MatchRest(RestText(t)) == Some(t)
  {
    var s5 := LanguageText(t.language) + t.trail;
    var s4 := t.gap2 + s5;
    assert RestText(t) == CellsText(t.cells) + s4;
    assert t.cells.None? ==> s4 == s5;
    CellsClauseOf(t.cells, s4);
    assert StartsOutside(s5, IsSpace) by {
      if t.language.Some? {
        assert s5[0] == 'l';
      } else {
        assert s5 == [];
      }
    }
    RunOf(t.gap2, s5, IsSpace);
    LanguageClauseOf(t.language, t.trail);
    RunOf(t.trail, [], IsSpace);
    assert t.trail + [] == t.trail;
  }

  /** Reading blanks, a whole token and blanks off the front of a text, as Match does. */
  lemma ReadHead(lead: string, src: string, gap1: string, s3: string)
    requires All(lead, IsSpace) && src != [] && All(src, IsToken) && All(gap1, IsSpace)
    requires StartsOutside(gap1 + s3, IsToken) && StartsOutside(s3, IsSpace)
    ensures var s2 := gap1 + s3;
      var s1 := src + s2;
      var s := lead + s1;
      && Run(s, IsSpace) == |lead| && s[..|lead|] == lead && s[|lead|..] == s1
      && Run(s1, IsToken) == |src| && s1[..|src|] == src && s1[|src|..] == s2
      && Run(s2, IsSpace) == |gap1| && s2[..|gap1|] == gap1 && s2[|gap1|..] == s3
  {
    var s2 := gap1 + s3;
    var s1 := src + s2;
    assert StartsOutside(s1, IsSpace) by {
      assert s1[0] == src[0];
    }
    RunOf(lead, s1, IsSpace);
    RunOf(src, s2, IsToken);
    RunOf(gap1, s3, IsSpace);
  }

  /** On a layout in the recognizer's own form, the recognizer gives back that very layout. */
  lemma MatchNormal(l: Layout)
    requires Admissible(l) && Maximal(l) && Normal(l)
    ensures Match(Spell(l)) == Some(l)
  {
    var s3 := RestText(RestOf(l));
    assert After(l) == l.gap1 + s3;
    assert StartsOutside(s3, IsSpace) by {
      if l.cells.Some? {
        assert s3[0] == 'c';
      } else if l.language.Some? {
        assert s3 == LanguageText(l.language) + l.trail;
        assert s3[0] == 'l';
      } else {
        assert s3 == [];
      }
    }
    ReadHead(l.lead, l.src, l.gap1, s3);
    MatchRestOf(RestOf(l));
  }

  /** Source token followed directly by a cells clause, then a blank or nothing. */
  lemma GlueCells(l: Layout)
    requires Admissible(l) && l.gap1 == [] && l.cells.Some?
    requires l.gap2 == [] ==> l.language.None?
    ensures var c := Layout(l.lead, l.src + CellsText(l.cells), l.gap2, None, [], l.language, l.trail);
      Admissible(c) && Maximal(c) && Spell(c) == Spell(l)
  {
    var c := Layout(l.lead, l.src + CellsText(l.cells), l.gap2, None, [], l.language, l.trail);
    assert Admissible(c) by {
      CellsTextIsToken(l.cells);
      AllConcat(l.src, CellsText(l.cells), IsToken);
    }
    GluedSpell(l, c);
    GluedMaximal(l, c);
  }

  lemma GluedSpell(l: Layout, c: Layout)
    requires l.gap1 == []
    requires c == Layout(l.lead, l.src + CellsText(l.cells), l.gap2, None, [], l.language, l.trail)
    ensures Spell(c) == Spell(l)
  {
    var ct := CellsText(l.cells);
    var tail := l.gap2 + (LanguageText(l.language) + l.trail);
    calc {
      Spell(c);
      l.lead + ((l.src + ct) + After(c));
      { assert After(c) == tail; }
      l.lead + ((l.src + ct) + tail);
      { Assoc(l.src, ct, tail); }
      l.lead + (l.src + (ct + tail));
      { assert After(l) == ct + tail; }
      Spell(l);
    }
  }

  lemma GluedMaximal(l: Layout, c: Layout)
    requires All(l.gap2, IsSpace) && All(l.trail, IsSpace)
    requires l.gap2 == [] ==> l.language.None?
    requires c == Layout(l.lead, l.src + CellsText(l.cells), l.gap2, None, [], l.language, l.trail)
    ensures Maximal(c)
  {
    var tail := l.gap2 + (LanguageText(l.language) + l.trail);
    assert After(c) == tail;
    if l.gap2 == [] {
      assert tail == l.trail;
    } else {
      assert tail[0] == l.gap2[0];
    }
  }

  /** Source token, cells clause and language clause all in one token. */
  lemma GlueBoth(l: Layout)
    requires Admissible(l) && l.gap1 == [] && l.cells.Some? && l.gap2 == [] && l.language.Some?
    ensures var c := Layout(l.lead, l.src + CellsText(l.cells) + LanguageText(l.language), [], None, [], None, l.trail);
      Admissible(c) && Maximal(c) && Spell(c) == Spell(l)
  {
    var ct := CellsText(l.cells);
    var lt := LanguageText(l.language);
    var c := Layout(l.lead, l.src + ct + lt, [], None, [], None, l.trail);
    assert Admissible(c) by {
      CellsTextIsToken(l.cells);
      LanguageTextIsToken(l.language);
      AllConcat(l.src, ct, IsToken);
      AllConcat(l.src + ct, lt, IsToken);
    }
    assert After(c) == l.trail;
    calc {
      Spell(c);
      l.lead + (((l.src + ct) + lt) + l.trail);
      { Assoc(l.src + ct, lt, l.trail); Assoc(l.src, ct, lt + l.trail); }
      l.lead + (l.src + (ct + (lt + l.trail)));
      { assert After(l) == ct + (lt + l.trail); }
      Spell(l);
    }
  }

  /** Source token followed directly by a language clause. */
  lemma GlueLanguage(l: Layout)
    requires Admissible(l) && l.gap1 == [] && l.cells.None? && l.gap2 == [] && l.language.Some?
    ensures var c := Layout(l.lead, l.src + LanguageText(l.language), [], None, [], None, l.trail);
      Admissible(c) && Maximal(c) && Spell(c) == Spell(l)
  {
    var lt := LanguageText(l.language);
    var c := Layout(l.lead, l.src + lt, [], None, [], None, l.trail);
    LanguageTextIsToken(l.language);
    AllConcat(l.src, lt, IsToken);
    assert After(c) == l.trail;
    assert After(l) == lt + l.trail;
  }

  /** Without a cells clause and without a glued language clause, the token is already whole. */
  lemma NothingGlued(l: Layout)
    requires Admissible(l) && l.gap1 == [] && l.cells.None?
    requires l.gap2 == [] ==> l.language.None?
    ensures Maximal(l)
  {
    assert After(l) == l.gap2 + (LanguageText(l.language) + l.trail);
    if l.gap2 == [] {
      assert After(l) == l.trail;
    }
  }

  /**
   * When a clause sits right against the source token, `\S+` swallows it: the same
   * text read with the clause folded into the source token.
   */
  function Canonical(l: Layout): (c: Layout)
    requires Admissible(l)
    ensures Admissible(c) && Maximal(c) && Spell(c) == Spell(l)
  {
    if l.gap1 != [] then l
    else if l.cells.Some? then
      if l.gap2 == [] && l.language.Some? then
        GlueBoth(l);
        Layout(l.lead, l.src + CellsText(l.cells) + LanguageText(l.language), [], None, [], None, l.trail)
      else
        GlueCells(l);
        Layout(l.lead, l.src + CellsText(l.cells), l.gap2, None, [], l.language, l.trail)
    else if l.gap2 == [] && l.language.Some? then
      GlueLanguage(l);
      Layout(l.lead, l.src + LanguageText(l.language), [], None, [], None, l.trail)
    else
      NothingGlued(l);
      l
  }

  /** A text spelled along FORMAT with a whole first token is read back with the same groups. */
  lemma MatchGroups(l: Layout)
    requires Admissible(l) && Maximal(l)
    ensures Match(Spell(l)).Some? && SameGroups(Match(Spell(l)).value, l)
  {
    MatchNormal(Normalize(l));
  }

  /**
   * The recognizer accepts a text exactly when the text can be cut along FORMAT:
   * optional blanks, a token, optional blanks, an optional cells clause, optional
   * blanks, an optional language clause, optional blanks.
   */
  lemma AcceptsExactly(s: string)
    ensures Match(s).Some? <==> exists l :: Admissible(l) && Spell(l) == s
  {
    if l :| Admissible(l) && Spell(l) == s {
      MatchNormal(Normalize(Canonical(l)));
    }
  }

  // The parse-and-default step (truthiness of the groups, then int()).

  function StartGroup(l: Layout): Option<string> {
    if l.cells.Some? then Some(l.cells.value.start) else None
  }

  function EndGroup(l: Layout): Option<string> {
    if l.cells.Some? then Some(l.cells.value.end) else None
  }

  /** Python truthiness of a group: present and not empty. */
  predicate Truthy(g: Option<string>) {
    g.Some? && g.value != []
  }

  /** int() of a group, raising on text it cannot read. */
  function ToInt(t: string): (r: Result<int, Error>)
    ensures IsIndexText(t) ==> (r.Failure? <==> Unsigned(t) == [])
    ensures r.Success? ==> IntLiteral(t) == Some(r.value)
    ensures r.Failure? ==> r.error == InvalidLiteral(t)
  {
    match IntLiteral(t)
    case None => Failure(InvalidLiteral(t))
    case Some(n) => Success(n)
  }

  /** The start: 0 for an absent or empty group, int() of the group otherwise. */
  function StartIndex(g: Option<string>): (r: Result<int, Error>)
    ensures !Truthy(g) ==> r == Success(0)
    ensures Truthy(g) ==> (r.Success? <==> IntLiteral(g.value).Some?)
    ensures Truthy(g) && r.Success? ==> IntLiteral(g.value) == Some(r.value)
    ensures r.Failure? ==> Truthy(g) && r.error == InvalidLiteral(g.value)
  {
    if Truthy(g) then ToInt(g.value) else Success(0)
  }

  /** The end: None ("to the end") for an absent or empty group, int() of the group otherwise. */
  function EndIndex(g: Option<string>): (r: Result<Option<int>, Error>)
    ensures !Truthy(g) ==> r == Success(None)
    ensures Truthy(g) ==> (r.Success? <==> IntLiteral(g.value).Some?)
    ensures Truthy(g) && r.Success? ==> r.value.Some? && IntLiteral(g.value) == r.value
    ensures r.Failure? ==> Truthy(g) && r.error == InvalidLiteral(g.value)
  {
    if Truthy(g) then
      var n :- ToInt(g.value);
      Success(Some(n))
    else Success(None)
  }

  /** The groups of a match, defaults applied: start before end, as the source converts them. */
  function Interpret(l: Layout): (r: Result<Request, Error>)
    ensures r.Success? ==> r.value.src == l.src && r.value.language == l.language
    ensures r.Failure? ==> r.error.InvalidLiteral?
  {
    var start :- StartIndex(StartGroup(l));
    var end :- EndIndex(EndGroup(l));
    Success(Request(l.src, start, end, l.language))
  }

  /** The parse-and-default part of the `thebe` tag. */
  function ParseDirective(markup: string): (r: Result<Request, Error>)
    ensures r.Failure? && r.error.FormatMismatch? <==> Match(markup).None?
    ensures r.Failure? && r.error.FormatMismatch? ==> r.error.message == SyntaxMessage
    ensures r.Success? ==> r.value.src != [] && All(r.value.src, IsToken)
  {
    match Match(markup)
    case None => Failure(FormatMismatch(SyntaxMessage))
    case Some(l) => Interpret(l)
  }

  /**
   * What the tag extracts from a text spelled along FORMAT with a whole first token:
   * the source token and the language group as spelled; start 0 and end None when
   * their group is absent or empty, otherwise int() of the group; only a bare "-"
   * group, which the pattern admits and int() refuses, makes it raise.
   */
  lemma ParseSpelled(l: Layout)
    requires Admissible(l) && Maximal(l)
    ensures var r := ParseDirective(Spell(l));
      && (r.Success? <==> StartGroup(l) != Some("-") && EndGroup(l) != Some("-"))
      && (r.Failure? ==> r.error == InvalidLiteral("-"))
      && (r.Success? ==> r.value.src == l.src && r.value.language == l.language)
      && (r.Success? && Truthy(StartGroup(l)) ==> IntLiteral(StartGroup(l).value) == Some(r.value.start))
      && (r.Success? && !Truthy(StartGroup(l)) ==> r.value.start == 0)
      && (r.Success? && Truthy(EndGroup(l)) ==> r.value.end == IntLiteral(EndGroup(l).value))
      && (r.Success? && !Truthy(EndGroup(l)) ==> r.value.end == None)
  {
    ParseIsInterpret(l);
    InterpretGroups(l);
  }

  lemma ParseIsInterpret(l: Layout)
    requires Admissible(l) && Maximal(l)
    ensures ParseDirective(Spell(l)) == Interpret(l)
  {
    MatchGroups(l);
    var m := Match(Spell(l)).value;
    InterpretSameGroups(m, l);
  }

  lemma InterpretSameGroups(m: Layout, l: Layout)
    requires SameGroups(m, l)
    ensures Interpret(m) == Interpret(l)
  {
    assert StartGroup(m) == StartGroup(l) && EndGroup(m) == EndGroup(l);
  }

  /** int() of an index text that is not empty fails only on a bare "-". */
  lemma IndexGroup(g: Option<string>)
    requires g.Some? ==> IsIndexText(g.value)
    ensures Truthy(g) && IntLiteral(g.value).None? <==> g == Some("-")
  {
    if Truthy(g) && IntLiteral(g.value).None? {
      assert Unsigned(g.value) == [];
      assert g.value == ['-'];
    }
    if g == Some("-") {
      assert g.value[0] == '-' && |g.value| == 1;
    }
  }

  lemma InterpretGroups(l: Layout)
    requires Admissible(l)
    ensures var r := Interpret(l);
      && (r.Success? <==> StartGroup(l) != Some("-") && EndGroup(l) != Some("-"))
      && (r.Failure? ==> r.error == InvalidLiteral("-"))
      && (r.Success? ==> r.value.src == l.src && r.value.language == l.language)
      && (r.Success? && Truthy(StartGroup(l)) ==> IntLiteral(StartGroup(l).value) == Some(r.value.start))
      && (r.Success? && !Truthy(StartGroup(l)) ==> r.value.start == 0)
      && (r.Success? && Truthy(EndGroup(l)) ==> r.value.end == IntLiteral(EndGroup(l).value))
      && (r.Success? && !Truthy(EndGroup(l)) ==> r.value.end == None)
  {
    IndexGroup(StartGroup(l));
    IndexGroup(EndGroup(l));
  }

  /** A non-empty text without blanks: what `\S+` captures. */
  predicate IsSourceToken(t: string) {
    t != [] && All(t, IsToken)
  }

  /** The text of a source token followed by a blank and a cells clause. */
  lemma SpellCells(t: string, g: Range)
    ensures Spell(Layout([], t, " ", Some(g), [], None, [])) == t + " cells[" + g.start + ":" + g.end + "]"
  {
    var ct := CellsText(Some(g));
    assert Spell(Layout([], t, " ", Some(g), [], None, [])) == t + (" " + ct);
    assert " " + "cells[" == " cells[";
    assert " " + ct == " cells[" + g.start + ":" + g.end + "]";
  }

  /** A bare source token: start 0, end "to the end", no language. */
  lemma NoClauseDefaults(t: string)
    requires IsSourceToken(t)
    ensures ParseDirective(t) == Success(Request(t, 0, None, None))
  {
    var l := Layout([], t, [], None, [], None, []);
    assert Spell(l) == t;
    ParseIsInterpret(l);
  }

  /** `cells[:]` gives the same defaults as no cells clause at all. */
  lemma EmptyRangeDefaults(t: string)
    requires IsSourceToken(t)
    ensures ParseDirective(t + " cells[:]") == Success(Request(t, 0, None, None))
  {
    var l := Layout([], t, " ", Some(Range("", "")), [], None, []);
    assert t + " cells[" + "" + ":" + "" + "]" == t + " cells[:]";
    ParseCells(t, Range("", ""), t + " cells[:]");
    assert !Truthy(StartGroup(l)) && !Truthy(EndGroup(l));
  }

  /** A token, a blank and a cells clause with well-formed bounds parse as that layout. */
  lemma ParseCells(t: string, g: Range, s: string)
    requires IsSourceToken(t) && IsIndexText(g.start) && IsIndexText(g.end)
    requires s == t + " cells[" + g.start + ":" + g.end + "]"
    ensures ParseDirective(s) == Interpret(Layout([], t, " ", Some(g), [], None, []))
  {
    var l := Layout([], t, " ", Some(g), [], None, []);
    SpellCells(t, g);
    assert Admissible(l) && Maximal(l);
    ParseIsInterpret(l);
  }

  /** Written-out indices are read back as the integers they spell, so an end of 0 stays 0. */
  lemma ExplicitRange(t: string, a: int, b: int)
    requires IsSourceToken(t)
    ensures ParseDirective(t + " cells[" + IntText(a) + ":" + IntText(b) + "]")
         == Success(Request(t, a, Some(b), None))
  {
    var l := Layout([], t, " ", Some(Range(IntText(a), IntText(b))), [], None, []);
    assert StartIndex(StartGroup(l)) == Success(a) by { IntLiteralOfIntText(a); }
    assert EndIndex(EndGroup(l)) == Success(Some(b)) by { IntLiteralOfIntText(b); }
    assert Interpret(l) == Success(Request(t, a, Some(b), None));
    ParseCells(t, Range(IntText(a), IntText(b)), t + " cells[" + IntText(a) + ":" + IntText(b) + "]");
  }

  /** `cells[a:]` gives start a and leaves the end open. */
  lemma StartOnly(t: string, a: int)
    requires IsSourceToken(t)
    ensures ParseDirective(t + " cells[" + IntText(a) + ":]") == Success(Request(t, a, None, None))
  {
    var l := Layout([], t, " ", Some(Range(IntText(a), "")), [], None, []);
    assert StartIndex(StartGroup(l)) == Success(a) by { IntLiteralOfIntText(a); }
    assert EndIndex(EndGroup(l)) == Success(None);
    assert Interpret(l) == Success(Request(t, a, None, None));
    assert t + " cells[" + IntText(a) + ":" + "" + "]" == t + " cells[" + IntText(a) + ":]";
    ParseCells(t, Range(IntText(a), ""), t + " cells[" + IntText(a) + ":]");
  }

  /** A language clause is passed on as written, `language[]` as the empty string. */
  lemma LanguageClauseKept(t: string, x: string)
    requires IsSourceToken(t) && All(x, IsLanguageChar)
    ensures ParseDirective(t + " language[" + x + "]") == Success(Request(t, 0, None, Some(x)))
  {
    var l := Layout([], t, " ", None, [], Some(x), []);
    assert Spell(l) == t + " language[" + x + "]";
    ParseIsInterpret(l);
  }

  /** A bare "-" passes the pattern and then fails in int(), for the start and for the end. */
  lemma BareMinusRaises(t: string)
    requires IsSourceToken(t)
    ensures ParseDirective(t + " cells[-:]") == Failure(InvalidLiteral("-"))
    ensures ParseDirective(t + " cells[:-]") == Failure(InvalidLiteral("-"))
  {
    BareMinusStart(t);
    BareMinusEnd(t);
  }

  lemma BareMinusStart(t: string)
    requires IsSourceToken(t)
    ensures ParseDirective(t + " cells[-:]") == Failure(InvalidLiteral("-"))
  {
    assert Unsigned("-") == [];
    assert t + " cells[" + "-" + ":" + "" + "]" == t + " cells[-:]";
    ParseCells(t, Range("-", ""), t + " cells[-:]");
  }

  lemma BareMinusEnd(t: string)
    requires IsSourceToken(t)
    ensures ParseDirective(t + " cells[:-]") == Failure(InvalidLiteral("-"))
  {
    assert Unsigned("-") == [];
    assert t + " cells[" + "" + ":" + "-" + "]" == t + " cells[:-]";
    ParseCells(t, Range("", "-"), t + " cells[:-]");
  }

  /** A cells clause with no blank before it is swallowed into the source token. */
  lemma GluedCellsSwallowed(t: string, g: Range)
    requires IsSourceToken(t) && IsIndexText(g.start) && IsIndexText(g.end)
    ensures ParseDirective(t + CellsText(Some(g))) == Success(Request(t + CellsText(Some(g)), 0, None, None))
  {
    var ct := CellsText(Some(g));
    CellsTextIsToken(Some(g));
    AllConcat(t, ct, IsToken);
    var l := Layout([], t + ct, [], None, [], None, []);
    assert Spell(l) == t + ct;
    ParseIsInterpret(l);
  }

  /** A cells clause on its own is the first token, so it is taken as the file name. */
  lemma LoneClauseIsSource(g: Range)
    requires IsIndexText(g.start) && IsIndexText(g.end)
    ensures ParseDirective(CellsText(Some(g))) == Success(Request(CellsText(Some(g)), 0, None, None))
  {
    CellsTextIsToken(Some(g));
    NoClauseDefaults(CellsText(Some(g)));
  }

  /** The clauses have a fixed order: a language clause before a cells clause is a syntax error. */
  lemma LanguageBeforeCellsRejected(t: string, x: string, g: Range)
    requires IsSourceToken(t) && All(x, IsLanguageChar)
    requires IsIndexText(g.start) && IsIndexText(g.end)
    ensures ParseDirective(t + " " + LanguageText(Some(x)) + " " + CellsText(Some(g)))
         == Failure(FormatMismatch(SyntaxMessage))
  {
    SwappedRefusedByPattern(t, x, g);
    Refused(t + " " + LanguageText(Some(x)) + " " + CellsText(Some(g)));
  }

  lemma SwappedRefusedByPattern(t: string, x: string, g: Range)
    requires IsSourceToken(t) && All(x, IsLanguageChar)
    ensures Match(t + " " + LanguageText(Some(x)) + " " + CellsText(Some(g))) == None
  {
    var ct := CellsText(Some(g));
    var lt := LanguageText(Some(x));
    var s3 := lt + (" " + ct);
    Regroup(t, lt, ct);
    TailOfSwapped(x, g);
    RefusedTail(t, s3);
  }

  lemma Regroup(t: string, a: string, b: string)
    ensures t + " " + a + " " + b == t + (" " + (a + (" " + b)))
  {
  }

  /** A text the pattern refuses raises the syntax error. */
  lemma Refused(s: string)
    requires Match(s) == None
    ensures ParseDirective(s) == Failure(FormatMismatch(SyntaxMessage))
  {
  }

  /** When the tail after the first token and a blank cannot be read as the tail of FORMAT, the whole text is refused. */
  lemma RefusedTail(t: string, s3: string)
    requires IsSourceToken(t)
    requires StartsOutside(s3, IsSpace) && MatchRest(s3) == None
    ensures Match(t + (" " + s3)) == None
  {
    assert [] + (t + (" " + s3)) == t + (" " + s3);
    MatchOfHead([], t, " ", s3);
  }

  /** After blanks, a whole token and blanks, Match accepts exactly when the tail recognizer does. */
  lemma MatchOfHead(lead: string, src: string, gap1: string, s3: string)
    requires All(lead, IsSpace) && src != [] && All(src, IsToken) && All(gap1, IsSpace)
    requires StartsOutside(gap1 + s3, IsToken) && StartsOutside(s3, IsSpace)
    ensures Match(lead + (src + (gap1 + s3))).None? <==> MatchRest(s3).None?
  {
    ReadHead(lead, src, gap1, s3);
  }

  /** Reading a language clause, one blank and a cells clause: the cells clause is left over. */
  lemma TailOfSwapped(x: string, g: Range)
    requires All(x, IsLanguageChar)
    ensures var s3 := LanguageText(Some(x)) + (" " + CellsText(Some(g)));
      s3 != [] && s3[0] == 'l' && MatchRest(s3) == None
  {
    var ct := CellsText(Some(g));
    var lt := LanguageText(Some(x));
    var s6 := " " + ct;
    var s3 := lt + s6;
    CellsClauseOf(None, s3);
    assert CellsText(None) + s3 == s3;
    RunOf([], s3, IsSpace);
    assert s3[0..] == s3 && s3[..0] == [];
    LanguageClauseOf(Some(x), s6);
    assert s3[|lt|..] == s6;
    RunOf(" ", ct, IsSpace);
    assert |s6| > 1;
  }
}
