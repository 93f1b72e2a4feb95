/** The backlog-item record and its HTML serialisation (`pbi_to_html`).

    The document is a fixed sequence of fragments: the title, the objective, the
    four-slot user story, the happy-path list, and then the five optional lists,
    each of which is emitted only when it has at least one entry. Field values are
    inserted verbatim, without HTML escaping.

    The fixed markup the serialiser writes around the values is gathered in one
    record, `Markup`; `Html` holds the serialiser's own strings. The structural
    lemmas are stated for any markup with the separation properties of `WellFormed`,
    and `HtmlWellFormed` shows that the serialiser's markup has them. */
module PbiHtml {
  import opened Text

  /** One backlog item. `outcome` is the record's "then" slot (`then` is a Dafny keyword).
      A list the record lacks is the empty sequence: the serialiser treats a missing
      list and an empty one alike. */
  datatype Pbi = Pbi(
    title: string,
    objective: string,
    role: string,
    when: string,
    outcome: string,
    benefit: string,
    happyPath: seq<string>,
    validations: seq<string>,
    errorStates: seq<string>,
    prototypeRefs: seq<string>,
    dependencies: seq<string>,
    techNotes: seq<string>)

  /** The text written around the values. A section head also opens that section's `<ul>`. */
  datatype Markup = Markup(
    titleOpen: string,
    titleClose: string,
    objectiveHead: string,
    paraClose: string,
    storyHead: string,
    asLabel: string,
    whenLabel: string,
    thenLabel: string,
    forLabel: string,
    criteriaHead: string,
    itemOpen: string,
    itemClose: string,
    listClose: string,
    validationsHead: string,
    errorsHead: string,
    prototypeHead: string,
    dependenciesHead: string,
    techNotesHead: string)

  /** The markup `pbi_to_html` writes. */
  const Html := Markup(
    "<h2>",
    "</h2>",
    "<h3>\U{1F3AF} Objetivo</h3><p>",
    "</p>",
    "<h3>\U{1F464} Historia de Usuario</h3>",
    "<p><b>Como</b> ",
    "<br><b>Cuando</b> ",
    "<br><b>Entonces</b> ",
    "<br><b>Para</b> ",
    "<h3>\U{2705} Criterios de Aceptación</h3><h4>Happy Path</h4><ul>",
    "<li>",
    "</li>",
    "</ul>",
    "<h4>Validaciones y Edge Cases</h4><ul>",
    "<h4>Estados de Error</h4><ul>",
    "<h3>\U{1F5BC}\U{FE0F} Prototipo</h3><ul>",
    "<h3>\U{1F517} Dependencias</h3><ul>",
    "<h3>\U{1F4A1} Notas Técnicas</h3><ul>")

  // ---------------------------------------------------------------------------
  // The document, fragment by fragment

  function Li(m: Markup, x: string): string {
    m.itemOpen + x + m.itemClose
  }

  /** One list element per entry, in order. */
  function Items(m: Markup, xs: seq<string>): string {
    if xs == [] then "" else Items(m, xs[..|xs| - 1]) + Li(m, xs[|xs| - 1])
  }

  /** An optional list: its head (which opens the `<ul>`), its items and the closing
      `</ul>`, or nothing at all when the list is empty. */
  function Section(m: Markup, head: string, xs: seq<string>): string {
    if xs == [] then "" else head + Items(m, xs) + m.listClose
  }

  function Heading(m: Markup, title: string): string {
    m.titleOpen + title + m.titleClose
  }

  function Objective(m: Markup, objective: string): string {
    m.objectiveHead + objective + m.paraClose
  }

  /** The user-story paragraph: Como / Cuando / Entonces / Para, in that order. */
  function Story(m: Markup, role: string, when: string, outcome: string, benefit: string): string {
    m.asLabel + role + m.whenLabel + when + m.thenLabel + outcome + m.forLabel + benefit + m.paraClose
  }

  /** Everything up to the end of the happy-path list, which is emitted even when empty. */
  function Mandatory(m: Markup, p: Pbi): string {
    Heading(m, p.title) + Objective(m, p.objective) + m.storyHead
    + Story(m, p.role, p.when, p.outcome, p.benefit)
    + m.criteriaHead + Items(m, p.happyPath) + m.listClose
  }

  /** The whole document: the fragments in their fixed order, nothing between them. */
  function Render(m: Markup, p: Pbi): string {
    Mandatory(m, p)
    + Section(m, m.validationsHead, p.validations)
    + Section(m, m.errorsHead, p.errorStates)
    + Section(m, m.prototypeHead, p.prototypeRefs)
    + Section(m, m.dependenciesHead, p.dependencies)
    + Section(m, m.techNotesHead, p.techNotes)
  }

  // ---------------------------------------------------------------------------
  // `pbi_to_html`: an accumulator grown with `+=`, one loop per list

  /** Appends one list element per entry of `xs` to `h`. */
  method AppendItems(h: string, xs: seq<string>) returns (acc: string)
    ensures acc == h + Items(Html, xs)
  {
    acc := h;
    for i := 0 to |xs|
      invariant acc == h + Items(Html, xs[..i])
    {
      assert xs[..i + 1][..i] == xs[..i];
      acc := acc + Html.itemOpen + xs[i] + Html.itemClose;
    }
    assert xs[..|xs|] == xs;
  }

  /** Appends an optional list to `h` when it has entries, and nothing otherwise. */
  method AppendSection(h: string, head: string, xs: seq<string>) returns (acc: string)
    ensures acc == h + Section(Html, head, xs)
  {
    acc := h;
    if xs != [] {
      acc := acc + head;
      acc := AppendItems(acc, xs);
      acc := acc + Html.listClose;
    }
  }

  method PbiToHtml(p: Pbi) returns (h: string)
    ensures h == Render(Html, p)
  {
    h := Heading(Html, p.title);
    h := h + Objective(Html, p.objective);
    h := h + Html.storyHead;
    h := h + Story(Html, p.role, p.when, p.outcome, p.benefit);
    h := h + Html.criteriaHead;
    h := AppendItems(h, p.happyPath);
    h := h + Html.listClose;
    h := AppendSection(h, Html.validationsHead, p.validations);
    h := AppendSection(h, Html.errorsHead, p.errorStates);
    h := AppendSection(h, Html.prototypeHead, p.prototypeRefs);
    h := AppendSection(h, Html.dependenciesHead, p.dependencies);
    h := AppendSection(h, Html.techNotesHead, p.techNotes);
  }

  // ---------------------------------------------------------------------------
  // The shape of the document

  lemma {:induction false} ItemsAppend(m: Markup, xs: seq<string>, ys: seq<string>)
    ensures Items(m, xs + ys) == Items(m, xs) + Items(m, ys)
    decreases |ys|
  {
    if ys == [] {
      assert xs + ys == xs;
    } else {
      var init := ys[..|ys| - 1];
      assert (xs + ys)[..|xs + ys| - 1] == xs + init;
      ItemsAppend(m, xs, init);
    }
  }

  lemma ItemsCons(m: Markup, x: string, xs: seq<string>)
    ensures Items(m, [x] + xs) == Li(m, x) + Items(m, xs)
  {
    ItemsAppend(m, [x], xs);
    assert [x][..0] == [];
  }

  /** Every entry becomes exactly one list element, in its own position: the elements
      of the entries before it, then its own, then those of the entries after it. */
  lemma ItemsAt(m: Markup, xs: seq<string>, k: nat)
    requires k < |xs|
    ensures Items(m, xs) == Items(m, xs[..k]) + Li(m, xs[k]) + Items(m, xs[k + 1..])
  {
    assert xs == xs[..k] + ([xs[k]] + xs[k + 1..]);
    ItemsAppend(m, xs[..k], [xs[k]] + xs[k + 1..]);
    ItemsCons(m, xs[k], xs[k + 1..]);
  }

  /** The document opens with the title heading, the objective, the user story and the
      happy-path head, in that order and with nothing between them. */
  lemma DocumentOpening(m: Markup, p: Pbi)
    ensures StartsWith(Render(m, p), Heading(m, p.title) + Objective(m, p.objective) + m.storyHead
                                     + Story(m, p.role, p.when, p.outcome, p.benefit) + m.criteriaHead)
  {
    var opening := Heading(m, p.title) + Objective(m, p.objective) + m.storyHead
                   + Story(m, p.role, p.when, p.outcome, p.benefit) + m.criteriaHead;
    var items := opening + Items(m, p.happyPath);
    StartsWithAppend(opening, Items(m, p.happyPath));
    StartsWithAppend(items, m.listClose);
    StartsWithTrans(Mandatory(m, p), items, opening);
    RenderSplit(m, p);
    StartsWithAppend(Mandatory(m, p), Optionals(m, p));
    StartsWithTrans(Render(m, p), Mandatory(m, p), opening);
  }

  /** An optional list leaves no trace when empty; otherwise it opens with its head
      and ends by closing its `<ul>`. */
  lemma SectionShape(m: Markup, head: string, xs: seq<string>)
    requires head != ""
    ensures Section(m, head, xs) == "" <==> xs == []
    ensures xs != [] ==> Section(m, head, xs) == head + Items(m, xs) + m.listClose
  {
  }

  /** An item with no optional list renders only the mandatory fragments, so the
      document ends with the happy-path list; an empty happy path still yields its
      head and an empty list. */
  lemma MandatoryOnly(m: Markup, p: Pbi)
    requires p.validations == [] && p.errorStates == [] && p.prototypeRefs == []
    requires p.dependencies == [] && p.techNotes == []
    ensures Render(m, p) == Mandatory(m, p)
    ensures p.happyPath == [] ==>
      Render(m, p) == Heading(m, p.title) + Objective(m, p.objective) + m.storyHead
                      + Story(m, p.role, p.when, p.outcome, p.benefit) + m.criteriaHead + m.listClose
  {
  }

  // ---------------------------------------------------------------------------
  // Items whose values hold no markup render to distinct documents

  /** No `<` in the text: a value that cannot be mistaken for markup. */
  predicate Plain(s: string) {
    forall i :: 0 <= i < |s| ==> s[i] != '<'
  }

  predicate AllPlain(xs: seq<string>) {
    forall i :: 0 <= i < |xs| ==> Plain(xs[i])
  }

  predicate PlainPbi(p: Pbi) {
    Plain(p.title) && Plain(p.objective) && Plain(p.role) && Plain(p.when)
    && Plain(p.outcome) && Plain(p.benefit)
    && AllPlain(p.happyPath) && AllPlain(p.validations) && AllPlain(p.errorStates)
    && AllPlain(p.prototypeRefs) && AllPlain(p.dependencies) && AllPlain(p.techNotes)
  }

  /** Markup that opens with a tag. */
  predicate Tag(s: string) {
    |s| > 0 && s[0] == '<'
  }

  /** `s` does not open with a section head whose fifth character is `c`. */
  predicate NotLed(c: char, s: string) {
    s == [] || (|s| > 4 && s[4] != c)
  }

  /** What makes the fragments of a document separable: every piece of markup that
      follows a value opens with a tag; an item and the end of a list differ in their
      second character; and no optional head shares its fifth character with a head
      that follows it. */
  predicate WellFormed(m: Markup) {
    Tag(m.titleClose) && Tag(m.paraClose) && Tag(m.whenLabel) && Tag(m.thenLabel)
    && Tag(m.forLabel) && Tag(m.itemClose)
    && |m.itemOpen| > 1 && |m.listClose| > 1 && m.itemOpen[1] != m.listClose[1]
    && |m.validationsHead| > 4 && |m.errorsHead| > 4 && |m.prototypeHead| > 4
    && |m.dependenciesHead| > 4 && |m.techNotesHead| > 4
    && m.validationsHead[4] != m.errorsHead[4]
    && m.validationsHead[4] != m.prototypeHead[4]
    && m.validationsHead[4] != m.dependenciesHead[4]
    && m.validationsHead[4] != m.techNotesHead[4]
    && m.errorsHead[4] != m.prototypeHead[4]
    && m.errorsHead[4] != m.dependenciesHead[4]
    && m.errorsHead[4] != m.techNotesHead[4]
    && m.prototypeHead[4] != m.dependenciesHead[4]
    && m.prototypeHead[4] != m.techNotesHead[4]
    && m.dependenciesHead[4] != m.techNotesHead[4]
  }

  /** The serialiser's own markup is separable. */
  lemma HtmlWellFormed()
    ensures WellFormed(Html)
  {
  }

  lemma PrefixCancel(a: string, s: string, t: string)
    requires a + s == a + t
    ensures s == t
  {
    assert s == (a + s)[|a|..];
    assert t == (a + t)[|a|..];
  }

  /** In a value followed by a tag, the first `<` is the tag's. */
  lemma TagAfter(x: string, close: string, r: string)
    requires Plain(x) && Tag(close)
    ensures (x + (close + r))[|x|] == '<'
    ensures forall i :: 0 <= i < |x| ==> (x + (close + r))[i] != '<'
  {
    assert forall i :: 0 <= i < |x| ==> (x + (close + r))[i] == x[i];
  }

  /** A value followed by a tag is read back up to that tag. */
  lemma ValueCancel(x: string, y: string, close: string, r1: string, r2: string)
    requires Plain(x) && Plain(y) && Tag(close)
    requires x + (close + r1) == y + (close + r2)
    ensures x == y && r1 == r2
  {
    var s := x + (close + r1);
    TagAfter(x, close, r1);
    TagAfter(y, close, r2);
    assert |x| == |y|;
    assert x == s[..|x|];
    assert y == s[..|y|];
    PrefixCancel(x, close + r1, close + r2);
    PrefixCancel(close, r1, r2);
  }

  /** Two texts that differ at position `i` cannot share a prefix that reaches past `i`. */
  lemma Clash(a: string, b: string, r1: string, r2: string, i: nat)
    requires i < |a| && i < |b| && a[i] != b[i]
    ensures a + r1 != b + r2
  {
    assert (a + r1)[i] == a[i];
    assert (b + r2)[i] == b[i];
  }

  lemma ItemsConsOnto(m: Markup, x: string, xs: seq<string>, r: string)
    ensures Items(m, [x] + xs) + r == m.itemOpen + (x + (m.itemClose + (Items(m, xs) + r)))
  {
    ItemsCons(m, x, xs);
  }

  /** The items of a list, closed by the end of the list, are read back exactly. */
  lemma {:induction false} ItemsCancel(m: Markup, xs: seq<string>, ys: seq<string>, r1: string, r2: string)
    requires WellFormed(m) && AllPlain(xs) && AllPlain(ys)
    requires Items(m, xs) + (m.listClose + r1) == Items(m, ys) + (m.listClose + r2)
    ensures xs == ys && r1 == r2
    decreases |xs|
  {
    var e1, e2 := m.listClose + r1, m.listClose + r2;
    if xs == [] && ys == [] {
      assert Items(m, xs) + e1 == e1 && Items(m, ys) + e2 == e2;
      PrefixCancel(m.listClose, r1, r2);
    } else if xs == [] {
      assert ys == [ys[0]] + ys[1..];
      ItemsConsOnto(m, ys[0], ys[1..], e2);
      Clash(m.listClose, m.itemOpen, r1, ys[0] + (m.itemClose + (Items(m, ys[1..]) + e2)), 1);
    } else if ys == [] {
      assert xs == [xs[0]] + xs[1..];
      ItemsConsOnto(m, xs[0], xs[1..], e1);
      Clash(m.itemOpen, m.listClose, xs[0] + (m.itemClose + (Items(m, xs[1..]) + e1)), r2, 1);
    } else {
      var xt, yt := xs[1..], ys[1..];
      assert xs == [xs[0]] + xt && ys == [ys[0]] + yt;
      ItemsConsOnto(m, xs[0], xt, e1);
      ItemsConsOnto(m, ys[0], yt, e2);
      var t1, t2 := Items(m, xt) + e1, Items(m, yt) + e2;
      PrefixCancel(m.itemOpen, xs[0] + (m.itemClose + t1), ys[0] + (m.itemClose + t2));
      assert Plain(xs[0]) && Plain(ys[0]);
      ValueCancel(xs[0], ys[0], m.itemClose, t1, t2);
      assert AllPlain(xt) by {
        forall i | 0 <= i < |xt| ensures Plain(xt[i]) { assert xt[i] == xs[i + 1]; }
      }
      assert AllPlain(yt) by {
        forall i | 0 <= i < |yt| ensures Plain(yt[i]) { assert yt[i] == ys[i + 1]; }
      }
      ItemsCancel(m, xt, yt, r1, r2);
    }
  }

  /** A text that opens with a section of head `head` is led by `head`'s fifth character. */
  lemma SectionNotLed(m: Markup, c: char, head: string, xs: seq<string>, r: string)
    requires |head| > 4 && head[4] != c && NotLed(c, r)
    ensures NotLed(c, Section(m, head, xs) + r)
  {
    if xs != [] {
      assert Section(m, head, xs) + r == head + (Items(m, xs) + m.listClose + r);
    }
  }

  /** A non-empty section opens with its head. */
  lemma SectionLead(m: Markup, head: string, xs: seq<string>, r: string)
    requires |head| > 4 && xs != []
    ensures |Section(m, head, xs) + r| > 4 && (Section(m, head, xs) + r)[4] == head[4]
  {
    assert Section(m, head, xs) + r == head + (Items(m, xs) + m.listClose + r);
  }

  /** An optional list, followed by text not led by its head, is read back exactly. */
  lemma SectionCancel(m: Markup, head: string, xs: seq<string>, ys: seq<string>, r1: string, r2: string)
    requires WellFormed(m) && AllPlain(xs) && AllPlain(ys) && |head| > 4
    requires NotLed(head[4], r1) && NotLed(head[4], r2)
    requires Section(m, head, xs) + r1 == Section(m, head, ys) + r2
    ensures xs == ys && r1 == r2
  {
    if xs != [] && ys != [] {
      assert Section(m, head, xs) + r1 == head + (Items(m, xs) + (m.listClose + r1));
      assert Section(m, head, ys) + r2 == head + (Items(m, ys) + (m.listClose + r2));
      PrefixCancel(head, Items(m, xs) + (m.listClose + r1), Items(m, ys) + (m.listClose + r2));
      ItemsCancel(m, xs, ys, r1, r2);
    } else if xs != [] {
      assert Section(m, head, ys) + r2 == r2;
      SectionLead(m, head, xs, r1);
    } else if ys != [] {
      assert Section(m, head, xs) + r1 == r1;
      SectionLead(m, head, ys, r2);
    } else {
      assert Section(m, head, xs) + r1 == r1 && Section(m, head, ys) + r2 == r2;
    }
  }

  /** The mandatory fragments, written right-nested in front of the rest of the document. */
  lemma MandatoryNested(m: Markup, p: Pbi, rest: string)
    ensures Mandatory(m, p) + rest
         == m.titleOpen + (p.title + (m.titleClose + (m.objectiveHead + (p.objective + (m.paraClose
            + (m.storyHead + (m.asLabel + (p.role + (m.whenLabel + (p.when + (m.thenLabel
            + (p.outcome + (m.forLabel + (p.benefit + (m.paraClose + (m.criteriaHead
            + (Items(m, p.happyPath) + (m.listClose + rest))))))))))))))))))
  {
    Regroup(m.titleOpen, p.title, m.titleClose, m.objectiveHead, p.objective, m.paraClose, m.storyHead,
            m.asLabel, p.role, m.whenLabel, p.when, m.thenLabel, p.outcome, m.forLabel, p.benefit,
            m.criteriaHead, Items(m, p.happyPath), m.listClose, rest);
  }

  lemma Regroup(t0: string, t: string, t1: string, o0: string, o: string, pc: string, sh: string,
                s0: string, s1: string, s2: string, s3: string, s4: string, s5: string, s6: string, s7: string,
                ch: string, it: string, lc: string, rest: string)
    ensures (t0 + t + t1) + (o0 + o + pc) + sh + (s0 + s1 + s2 + s3 + s4 + s5 + s6 + s7 + pc)
            + ch + it + lc + rest
         == t0 + (t + (t1 + (o0 + (o + (pc + (sh + (s0 + (s1 + (s2 + (s3 + (s4 + (s5 + (s6 + (s7
            + (pc + (ch + (it + (lc + rest))))))))))))))))))
  {
  }

  /** The mandatory fragments of two items whose values hold no `<` agree only when
      their six text fields and happy paths agree and so does what follows them. */
  lemma MandatoryCancel(m: Markup, p: Pbi, q: Pbi, r1: string, r2: string)
    requires WellFormed(m) && PlainPbi(p) && PlainPbi(q)
    requires Mandatory(m, p) + r1 == Mandatory(m, q) + r2
    ensures p.title == q.title && p.objective == q.objective && p.role == q.role
    ensures p.when == q.when && p.outcome == q.outcome && p.benefit == q.benefit
    ensures p.happyPath == q.happyPath && r1 == r2
  {
    MandatoryNested(m, p, r1);
    MandatoryNested(m, q, r2);
    var hp1 := Items(m, p.happyPath) + (m.listClose + r1);
    var hp2 := Items(m, q.happyPath) + (m.listClose + r2);
    var c1 := m.criteriaHead + hp1;
    var c2 := m.criteriaHead + hp2;
    var b1 := p.benefit + (m.paraClose + c1);
    var b2 := q.benefit + (m.paraClose + c2);
    var o1 := p.outcome + (m.forLabel + b1);
    var o2 := q.outcome + (m.forLabel + b2);
    var w1 := p.when + (m.thenLabel + o1);
    var w2 := q.when + (m.thenLabel + o2);
    var s1 := m.storyHead + (m.asLabel + (p.role + (m.whenLabel + w1)));
    var s2 := m.storyHead + (m.asLabel + (q.role + (m.whenLabel + w2)));
    var j1 := p.objective + (m.paraClose + s1);
    var j2 := q.objective + (m.paraClose + s2);
    PrefixCancel(m.titleOpen, p.title + (m.titleClose + (m.objectiveHead + j1)),
                              q.title + (m.titleClose + (m.objectiveHead + j2)));
    ValueCancel(p.title, q.title, m.titleClose, m.objectiveHead + j1, m.objectiveHead + j2);
    PrefixCancel(m.objectiveHead, j1, j2);
    ValueCancel(p.objective, q.objective, m.paraClose, s1, s2);
    PrefixCancel(m.storyHead, m.asLabel + (p.role + (m.whenLabel + w1)), m.asLabel + (q.role + (m.whenLabel + w2)));
    PrefixCancel(m.asLabel, p.role + (m.whenLabel + w1), q.role + (m.whenLabel + w2));
    ValueCancel(p.role, q.role, m.whenLabel, w1, w2);
    ValueCancel(p.when, q.when, m.thenLabel, o1, o2);
    ValueCancel(p.outcome, q.outcome, m.forLabel, b1, b2);
    ValueCancel(p.benefit, q.benefit, m.paraClose, c1, c2);
    PrefixCancel(m.criteriaHead, hp1, hp2);
    ItemsCancel(m, p.happyPath, q.happyPath, r1, r2);
  }

  /** The optional lists that follow the mandatory fragments. */
  function Optionals(m: Markup, p: Pbi): string {
    Section(m, m.validationsHead, p.validations)
    + (Section(m, m.errorsHead, p.errorStates)
    + (Section(m, m.prototypeHead, p.prototypeRefs)
    + (Section(m, m.dependenciesHead, p.dependencies)
    + Section(m, m.techNotesHead, p.techNotes))))
  }

  lemma RenderSplit(m: Markup, p: Pbi)
    ensures Render(m, p) == Mandatory(m, p) + Optionals(m, p)
  {
    var a := Section(m, m.validationsHead, p.validations);
    var b := Section(m, m.errorsHead, p.errorStates);
    var c := Section(m, m.prototypeHead, p.prototypeRefs);
    var d := Section(m, m.dependenciesHead, p.dependencies);
    var e := Section(m, m.techNotesHead, p.techNotes);
    Reassociate(Mandatory(m, p), a, b, c, d, e);
  }

  lemma Reassociate(k: string, a: string, b: string, c: string, d: string, e: string)
    ensures k + a + b + c + d + e == k + (a + (b + (c + (d + e))))
  {
  }

  lemma OptionalsCancel(m: Markup, p: Pbi, q: Pbi)
    requires WellFormed(m) && PlainPbi(p) && PlainPbi(q)
    requires Optionals(m, p) == Optionals(m, q)
    ensures p.validations == q.validations && p.errorStates == q.errorStates
    ensures p.prototypeRefs == q.prototypeRefs && p.dependencies == q.dependencies
    ensures p.techNotes == q.techNotes
  {
    var d1 := Section(m, m.techNotesHead, p.techNotes);
    var d2 := Section(m, m.techNotesHead, q.techNotes);
    var c1 := Section(m, m.dependenciesHead, p.dependencies) + d1;
    var c2 := Section(m, m.dependenciesHead, q.dependencies) + d2;
    var b1 := Section(m, m.prototypeHead, p.prototypeRefs) + c1;
    var b2 := Section(m, m.prototypeHead, q.prototypeRefs) + c2;
    var a1 := Section(m, m.errorsHead, p.errorStates) + b1;
    var a2 := Section(m, m.errorsHead, q.errorStates) + b2;
    // what follows each list is not led by that list's head
    SectionNotLed(m, m.dependenciesHead[4], m.techNotesHead, p.techNotes, "");
    SectionNotLed(m, m.dependenciesHead[4], m.techNotesHead, q.techNotes, "");
    SectionNotLed(m, m.prototypeHead[4], m.techNotesHead, p.techNotes, "");
    SectionNotLed(m, m.prototypeHead[4], m.techNotesHead, q.techNotes, "");
    SectionNotLed(m, m.prototypeHead[4], m.dependenciesHead, p.dependencies, d1);
    SectionNotLed(m, m.prototypeHead[4], m.dependenciesHead, q.dependencies, d2);
    SectionNotLed(m, m.errorsHead[4], m.techNotesHead, p.techNotes, "");
    SectionNotLed(m, m.errorsHead[4], m.techNotesHead, q.techNotes, "");
    SectionNotLed(m, m.errorsHead[4], m.dependenciesHead, p.dependencies, d1);
    SectionNotLed(m, m.errorsHead[4], m.dependenciesHead, q.dependencies, d2);
    SectionNotLed(m, m.errorsHead[4], m.prototypeHead, p.prototypeRefs, c1);
    SectionNotLed(m, m.errorsHead[4], m.prototypeHead, q.prototypeRefs, c2);
    SectionNotLed(m, m.validationsHead[4], m.techNotesHead, p.techNotes, "");
    SectionNotLed(m, m.validationsHead[4], m.techNotesHead, q.techNotes, "");
    SectionNotLed(m, m.validationsHead[4], m.dependenciesHead, p.dependencies, d1);
    SectionNotLed(m, m.validationsHead[4], m.dependenciesHead, q.dependencies, d2);
    SectionNotLed(m, m.validationsHead[4], m.prototypeHead, p.prototypeRefs, c1);
    SectionNotLed(m, m.validationsHead[4], m.prototypeHead, q.prototypeRefs, c2);
    SectionNotLed(m, m.validationsHead[4], m.errorsHead, p.errorStates, b1);
    SectionNotLed(m, m.validationsHead[4], m.errorsHead, q.errorStates, b2);
    SectionCancel(m, m.validationsHead, p.validations, q.validations, a1, a2);
    SectionCancel(m, m.errorsHead, p.errorStates, q.errorStates, b1, b2);
    SectionCancel(m, m.prototypeHead, p.prototypeRefs, q.prototypeRefs, c1, c2);
    SectionCancel(m, m.dependenciesHead, p.dependencies, q.dependencies, d1, d2);
    assert d1 + "" == d2 + "";
    SectionCancel(m, m.techNotesHead, p.techNotes, q.techNotes, "", "");
  }

  /** Two items whose values hold no `<` render alike only if they are the same item:
      the document determines every field, every list entry and their order. */
  lemma RenderInjective(m: Markup, p: Pbi, q: Pbi)
    requires WellFormed(m) && PlainPbi(p) && PlainPbi(q) && Render(m, p) == Render(m, q)
    ensures p == q
  {
    RenderSplit(m, p);
    RenderSplit(m, q);
    MandatoryCancel(m, p, q, Optionals(m, p), Optionals(m, q));
    OptionalsCancel(m, p, q);
  }

  /** Because values are inserted unescaped, markup inside a value can imitate the
      document's own structure: one happy-path entry holding `</li><li>` renders like two. */
  lemma MarkupInValuesCollides()
    ensures var p := Pbi("t", "o", "r", "w", "e", "b", ["a</li><li>b"], [], [], [], [], []);
            var q := p.(happyPath := ["a", "b"]);
            p != q && Render(Html, p) == Render(Html, q)
  {
    var p := Pbi("t", "o", "r", "w", "e", "b", ["a</li><li>b"], [], [], [], [], []);
    var q := p.(happyPath := ["a", "b"]);
    ItemsCons(Html, "a", ["b"]);
    ItemsCons(Html, "b", []);
    ItemsCons(Html, "a</li><li>b", []);
    assert ["a"] + ["b"] == q.happyPath;
    assert Items(Html, p.happyPath) == Items(Html, q.happyPath);
    assert |p.happyPath| != |q.happyPath|;
  }
}
