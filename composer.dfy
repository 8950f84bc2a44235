/**
  The document composer (`save_to_pdf`): the list of flowables handed to the
  PDF renderer. A fixed header block (name, email, phone number, a spacer,
  the date line, a larger spacer) is followed by one paragraph per
  blank-line-separated piece of the letter text. A countdown from the number
  of paragraphs picks each paragraph's style: while more than three
  paragraphs remain, the paragraph is set in the body style (indented,
  justified); the last three, or all of them in a letter of three paragraphs
  or fewer, are set in the header style (flush left).
 */
module Composer {
  import opened PyText
  import opened DateFormat

  /** The two paragraph styles; fonts, sizes and spacing belong to the renderer. */
  datatype Style = HeaderStyle | BodyStyle

  /** One element of the story: a paragraph of text in a style, or blank space of a given size in points. */
  datatype Flowable = Para(text: string, style: Style) | Spacer(width: nat, height: nat)

  /** The candidate's contact details from the configuration file. */
  datatype Profile = Profile(name: string, email: string, number: string)

  /** The separator between paragraphs of the letter text. */
  const ParagraphBreak: string := "\n\n"

  /** `text.strip().split("\n\n")`: the letter's paragraphs. */
  function Paragraphs(text: string): (ps: seq<string>)
    ensures |ps| >= 1
  {
    Split(Strip(text), ParagraphBreak)
  }

  /** The style of paragraph `i` (from 0) of `n`: body while more than three paragraphs remain. */
  function StyleAt(n: int, i: int): Style {
    if n - i > 3 then BodyStyle else HeaderStyle
  }

  /** The six flowables that open every letter. */
  function HeaderBlock(profile: Profile, today: Date): seq<Flowable>
    requires ValidDate(today)
  {
    [ Para(profile.name, HeaderStyle),
      Para(profile.email, HeaderStyle),
      Para(profile.number, HeaderStyle),
      Spacer(1, 12),
      Para(FormatDate(today), HeaderStyle),
      Spacer(1, 24) ]
  }

  /** The paragraphs of the letter, each in the style its position calls for. */
  function BodyBlock(ps: seq<string>): seq<Flowable> {
    seq(|ps|, i requires 0 <= i < |ps| => Para(ps[i], StyleAt(|ps|, i)))
  }

  /** The whole story of a letter with body `text`, dated `today`. */
  function Story(profile: Profile, today: Date, text: string): seq<Flowable>
    requires ValidDate(today)
  {
    HeaderBlock(profile, today) + BodyBlock(Paragraphs(text))
  }

  /**
    `save_to_pdf` up to the call that renders the story: builds the story by
    appending, and styles the paragraphs with a countdown `n` that starts at
    the paragraph count and drops by one after each paragraph.
   */
  method SaveToPdf(profile: Profile, today: Date, text: string) returns (story: seq<Flowable>)
    requires ValidDate(today)
    ensures story == Story(profile, today, text)
  {
    story := [];
    story := story + [Para(profile.name, HeaderStyle)];
    story := story + [Para(profile.email, HeaderStyle)];
    story := story + [Para(profile.number, HeaderStyle)];
    story := story + [Spacer(1, 12)];
    story := story + [Para(FormatDate(today), HeaderStyle)];
    story := story + [Spacer(1, 24)];
    assert story == HeaderBlock(profile, today);

    var n := |Split(Strip(text), ParagraphBreak)|;
    var paras := Split(Strip(text), ParagraphBreak);
    ghost var body := BodyBlock(paras);
    for i := 0 to |paras|
      invariant n == |paras| - i
      invariant story == HeaderBlock(profile, today) + body[..i]
    {
      assert body[..i + 1] == body[..i] + [body[i]];
      if n > 3 {
        story := story + [Para(paras[i], BodyStyle)];
      } else {
        story := story + [Para(paras[i], HeaderStyle)];
      }
      n := n - 1;
    }
    assert body[..|paras|] == body;
  }

  /**
    The story is the header block followed by one paragraph per piece of the
    stripped text, in order and unchanged: `6 + n` flowables in all.
   */
  lemma StoryLayout(profile: Profile, today: Date, text: string)
    requires ValidDate(today)
    ensures var story := Story(profile, today, text);
            var ps := Paragraphs(text);
            && |story| == 6 + |ps|
            && story[..6] == [ Para(profile.name, HeaderStyle), Para(profile.email, HeaderStyle),
                               Para(profile.number, HeaderStyle), Spacer(1, 12),
                               Para(FormatDate(today), HeaderStyle), Spacer(1, 24) ]
            && forall i :: 0 <= i < |ps| ==> story[6 + i] == Para(ps[i], StyleAt(|ps|, i))
  {
  }

  /** Paragraph `i` of `n` is in the body style exactly when it is not among the last three. */
  lemma BodyStyleIffNotLastThree(ps: seq<string>, i: nat)
    requires i < |ps|
    ensures BodyBlock(ps)[i].style == BodyStyle <==> i < |ps| - 3
  {
  }

  /** Body-style paragraphs come first: a body-style paragraph never follows a header-style one. */
  lemma BodyBeforeHeader(ps: seq<string>, i: nat, j: nat)
    requires i < j < |ps|
    requires BodyBlock(ps)[j].style == BodyStyle
    ensures BodyBlock(ps)[i].style == BodyStyle
  {
  }

  /** The number of paragraphs among `items` set in style `st`. */
  function CountStyle(items: seq<Flowable>, st: Style): nat {
    if items == [] then 0
    else
      var last := items[|items| - 1];
      CountStyle(items[..|items| - 1], st) + (if last.Para? && last.style == st then 1 else 0)
  }

  lemma {:induction false} CountStyleConcat(a: seq<Flowable>, b: seq<Flowable>, st: Style)
    ensures CountStyle(a + b, st) == CountStyle(a, st) + CountStyle(b, st)
    decreases |b|
  {
    if b == [] {
      assert a + b == a;
    } else {
      assert (a + b)[..|a + b| - 1] == a + b[..|b| - 1];
      CountStyleConcat(a, b[..|b| - 1], st);
    }
  }

  lemma {:induction false} CountStylePrefix(ps: seq<string>, k: nat)
    requires k <= |ps|
    ensures var bodies := if |ps| > 3 then |ps| - 3 else 0;
            var b := if k < bodies then k else bodies;
            CountStyle(BodyBlock(ps)[..k], BodyStyle) == b && CountStyle(BodyBlock(ps)[..k], HeaderStyle) == k - b
    decreases k
  {
    if k > 0 {
      var items := BodyBlock(ps)[..k];
      assert items[..k - 1] == BodyBlock(ps)[..k - 1];
      CountStylePrefix(ps, k - 1);
    }
  }

  /** A single flowable counts once for its own style and not at all for the other. */
  lemma CountStyleOne(x: Flowable, st: Style)
    ensures CountStyle([x], st) == if x.Para? && x.style == st then 1 else 0
  {
    assert [x][..0] == [];
  }

  /** The header block holds four header-style paragraphs and two spacers. */
  lemma {:induction false} HeaderBlockCounts(profile: Profile, today: Date)
    requires ValidDate(today)
    ensures CountStyle(HeaderBlock(profile, today), HeaderStyle) == 4
    ensures CountStyle(HeaderBlock(profile, today), BodyStyle) == 0
  {
    var h := HeaderBlock(profile, today);
    assert h == [h[0]] + [h[1]] + [h[2]] + [h[3]] + [h[4]] + [h[5]];
    forall st: Style ensures CountStyle(h, st) == if st == HeaderStyle then 4 else 0 {
      CountStyleConcat([h[0]] + [h[1]] + [h[2]] + [h[3]] + [h[4]], [h[5]], st);
      CountStyleConcat([h[0]] + [h[1]] + [h[2]] + [h[3]], [h[4]], st);
      CountStyleConcat([h[0]] + [h[1]] + [h[2]], [h[3]], st);
      CountStyleConcat([h[0]] + [h[1]], [h[2]], st);
      CountStyleConcat([h[0]], [h[1]], st);
      CountStyleOne(h[0], st);
      CountStyleOne(h[1], st);
      CountStyleOne(h[2], st);
      CountStyleOne(h[3], st);
      CountStyleOne(h[4], st);
      CountStyleOne(h[5], st);
    }
  }

  /**
    Of the `n` paragraphs of the letter, exactly `max(n - 3, 0)` are set in the
    body style and `min(n, 3)` in the header style; the header block adds four
    more header-style paragraphs and no body-style one.
   */
  lemma {:induction false} StyleCounts(profile: Profile, today: Date, text: string)
    requires ValidDate(today)
    ensures var n := |Paragraphs(text)|;
            && CountStyle(Story(profile, today, text), BodyStyle) == (if n > 3 then n - 3 else 0)
            && CountStyle(Story(profile, today, text), HeaderStyle) == (if n < 3 then n else 3) + 4
  {
    var ps := Paragraphs(text);
    CountStylePrefix(ps, |ps|);
    assert BodyBlock(ps)[..|ps|] == BodyBlock(ps);
    CountStyleConcat(HeaderBlock(profile, today), BodyBlock(ps), BodyStyle);
    CountStyleConcat(HeaderBlock(profile, today), BodyBlock(ps), HeaderStyle);
    HeaderBlockCounts(profile, today);
  }

  /** The texts of the paragraphs among `items`, in order; spacers carry none. */
  function ParagraphTexts(items: seq<Flowable>): seq<string> {
    if items == [] then []
    else (if items[0].Para? then [items[0].text] else []) + ParagraphTexts(items[1..])
  }

  lemma {:induction false} ParagraphTextsConcat(a: seq<Flowable>, b: seq<Flowable>)
    ensures ParagraphTexts(a + b) == ParagraphTexts(a) + ParagraphTexts(b)
    decreases |a|
  {
    if a != [] {
      assert (a + b)[1..] == a[1..] + b;
      ParagraphTextsConcat(a[1..], b);
    } else {
      assert a + b == b;
    }
  }

  /** In a run of paragraphs, the texts are read off one per flowable. */
  lemma {:induction false} ParagraphTextsOfParas(items: seq<Flowable>)
    requires forall i :: 0 <= i < |items| ==> items[i].Para?
    ensures |ParagraphTexts(items)| == |items|
    ensures forall i :: 0 <= i < |items| ==> ParagraphTexts(items)[i] == items[i].text
    decreases |items|
  {
    if items != [] {
      ParagraphTextsOfParas(items[1..]);
    }
  }

  /** The header block carries four lines of text: name, email, number and the date line. */
  lemma {:induction false} HeaderTexts(profile: Profile, today: Date)
    requires ValidDate(today)
    ensures ParagraphTexts(HeaderBlock(profile, today))
         == [profile.name, profile.email, profile.number, FormatDate(today)]
  {
    var h := HeaderBlock(profile, today);
    assert h == [h[0], h[1], h[2]] + h[3..];
    ParagraphTextsConcat([h[0], h[1], h[2]], h[3..]);
    ParagraphTextsOfParas([h[0], h[1], h[2]]);
    assert h[3..] == [h[3]] + [h[4]] + [h[5]];
    ParagraphTextsConcat([h[3]] + [h[4]], [h[5]]);
    ParagraphTextsConcat([h[3]], [h[4]]);
    assert [h[3]][1..] == [] && [h[4]][1..] == [] && [h[5]][1..] == [];
  }

  /**
    Every paragraph appears once, in its original order and unchanged: the
    story's paragraph texts are the four header lines followed by the pieces
    of the stripped text, and rejoining those pieces with blank lines gives
    back the stripped text.
   */
  lemma {:induction false} ParagraphsRejoin(profile: Profile, today: Date, text: string)
    requires ValidDate(today)
    ensures ParagraphTexts(Story(profile, today, text))
         == [profile.name, profile.email, profile.number, FormatDate(today)] + Paragraphs(text)
    ensures Join(ParagraphBreak, ParagraphTexts(Story(profile, today, text))[4..]) == Strip(text)
  {
    var h := HeaderBlock(profile, today);
    var b := BodyBlock(Paragraphs(text));
    ParagraphTextsConcat(h, b);
    ParagraphTextsOfParas(b);
    assert ParagraphTexts(b) == Paragraphs(text);
    HeaderTexts(profile, today);
    SplitJoin(Strip(text), ParagraphBreak);
  }

  /**
    The paragraphs are the one way to cut the stripped text at blank lines,
    leftmost first: a list of pieces is `Paragraphs(text)` exactly when it
    rejoins to the stripped text and each cut is at the first blank line.
   */
  lemma {:induction false} ParagraphsAreTheCut(text: string, pieces: seq<string>)
    ensures pieces == Paragraphs(text) <==>
            LeftmostPieces(pieces, ParagraphBreak) && Join(ParagraphBreak, pieces) == Strip(text)
  {
    SplitJoin(Strip(text), ParagraphBreak);
    SplitLeftmost(Strip(text), ParagraphBreak);
    if LeftmostPieces(pieces, ParagraphBreak) && Join(ParagraphBreak, pieces) == Strip(text) {
      SplitUnique(pieces, ParagraphBreak);
    }
  }

  /** An empty or all-whitespace letter still has one paragraph: an empty one, in the header style. */
  lemma {:induction false} BlankLetter(profile: Profile, today: Date, text: string)
    requires ValidDate(today)
    requires AllSpace(text)
    ensures Paragraphs(text) == [""]
    ensures Story(profile, today, text)[6..] == [Para("", HeaderStyle)]
  {
    StripEmptyIffBlank(text);
    SplitWithoutSeparator("", ParagraphBreak);
  }

  /** The text `"Hi\n\nBye"` has the two paragraphs `"Hi"` and `"Bye"`. */
  lemma {:induction false} TwoParagraphs(text: string)
    requires text == "Hi" + ParagraphBreak + "Bye"
    ensures Paragraphs(text) == ["Hi", "Bye"]
  {
    assert Strip(text) == text by {
      assert text[0..|text|] == text;
      StripUnique(text, 0, |text|);
    }
    forall m | 0 <= m < 2 ensures !MatchAt("Hi" + ParagraphBreak, ParagraphBreak, m) {
      assert ("Hi" + ParagraphBreak)[m..m + 2][0] == "Hi"[m];
    }
    forall m | 0 <= m < 3 ensures !MatchAt("Bye", ParagraphBreak, m) {
      if m + 2 <= 3 { assert "Bye"[m..m + 2][0] == "Bye"[m]; }
    }
    assert Join(ParagraphBreak, ["Hi", "Bye"]) == text;
    SplitUnique(["Hi", "Bye"], ParagraphBreak);
  }

  /** A two-paragraph letter: both paragraphs come out in the header style. */
  lemma TwoParagraphLetter(profile: Profile, today: Date, text: string)
    requires ValidDate(today)
    requires text == "Hi" + ParagraphBreak + "Bye"
    ensures Story(profile, today, text)[6..] == [Para("Hi", HeaderStyle), Para("Bye", HeaderStyle)]
  {
    TwoParagraphs(text);
  }
}
