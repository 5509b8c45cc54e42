/** `createOverridePlaceholder`: the stub resource document listing, with a
    default value each, every reference the scanner finds. */
module Placeholder {
  import opened Text
  import opened Scanner

  /** The `defaults` object: a value per recognised resource type. */
  const Defaults: map<string, string> := map["color" := "#FF00FF", "dimen" := "0dp", "string" := "None"]

  /** `defaults[tag] || '""'`: the recognised default, otherwise the two
      characters `""`. */
  function DefaultValue(kind: string): (v: string)
    ensures kind == "color" <==> v == "#FF00FF"
    ensures kind == "dimen" <==> v == "0dp"
    ensures kind == "string" <==> v == "None"
    ensures kind !in Defaults <==> v == "\"\""
  {
    if kind in Defaults then Defaults[kind] else "\"\""
  }

  /** `JSON.stringify(name)` for a word-character name, which needs no escape. */
  function Quote(name: string): string
    requires IsWord(name)
  {
    "\"" + name + "\""
  }

  /** `<tag name="name">default</tag>` for one reference. */
  function Element(r: Ref): string
    requires WellFormed(r)
  {
    "<" + r.kind + " name=" + Quote(r.name) + ">" + DefaultValue(r.kind) + "</" + r.kind + ">"
  }

  /** The `items.map(...)` lines, each indented by two spaces. */
  function EntryLines(refs: seq<Ref>): seq<string>
    requires forall j :: 0 <= j < |refs| ==> WellFormed(refs[j])
  {
    seq(|refs|, j requires 0 <= j < |refs| => "  " + Element(refs[j]))
  }

  /** The marker comment and the root element's tags. */
  const Comment := "<!--missing values-->"
  const Open := "<resources>"
  const Close := "</resources>"

  /** The template literal before the replacement: a leading newline, then
      tab-indented header lines, the entries and the closing tag. */
  function RawDocument(refs: seq<Ref>): string
    requires forall j :: 0 <= j < |refs| ==> WellFormed(refs[j])
  {
    "\n" + ("\t" + Comment) + "\n" + ("\t" + Open) + "\n"
    + Join(EntryLines(refs), '\n')
    + "\n" + ("\t" + Close)
  }

  /** `.replace(/^\s/gm, '')`: every white-space character standing at the
      start of a line is removed. `atLineStart` says whether the first
      character of `s` starts a line; whether a later one does is judged on
      the text before any removal, as the global replacement does. */
  function StripIndent(s: string, atLineStart: bool): (r: string)
    decreases |s|
    ensures |r| <= |s|
    ensures Visible(r) == Visible(s)
    ensures |s| > 0 && !IsWhiteSpace(s[0]) ==> |r| > 0 && r[0] == s[0]
  {
    if |s| == 0 then ""
    else
      var head := if atLineStart && IsWhiteSpace(s[0]) then "" else [s[0]];
      var rest := StripIndent(s[1..], IsLineTerminator(s[0]));
      VisibleCons(s);
      VisibleAppend(head, rest);
      head + rest
  }

  /** The result of `createOverridePlaceholder(text)`. */
  function CreateOverridePlaceholder(text: string): (doc: string)
    ensures doc == "" <==> Scan(text) == []
    ensures Scan(text) != [] ==>
      && doc == Join(Layout(Scan(text)), '\n')
      && Split(doc, '\n') == Layout(Scan(text))
  {
    var items := Scan(text);
    if |items| == 0 then ""
    else
      PlaceholderLayout(items);
      StripIndent(RawDocument(items), true)
  }

  /** The lines a non-empty placeholder consists of: the comment marker, the
      opening root tag, one line per reference in scan order, each indented
      by exactly one space, and the closing root tag. */
  function Layout(refs: seq<Ref>): seq<string>
    requires forall j :: 0 <= j < |refs| ==> WellFormed(refs[j])
  {
    [Comment, Open]
    + seq(|refs|, j requires 0 <= j < |refs| => " " + Element(refs[j]))
    + [Close]
  }

  /** An element is one line and begins with `<` and its type, as its
      opening tag does. */
  lemma ElementSingleLine(r: Ref)
    requires WellFormed(r)
    ensures SingleLine(Element(r))
    ensures |Element(r)| > |r.kind| && Element(r)[..|r.kind| + 1] == "<" + r.kind
  {
    var k := r.kind;
    var tail := " name=" + Quote(r.name) + ">" + DefaultValue(k) + "</" + k + ">";
    assert Element(r) == ("<" + k) + tail;
    assert SingleLine(k) && SingleLine(r.name);
    assert SingleLine(DefaultValue(k));
    assert SingleLine("<") && SingleLine(" name=\"") && SingleLine("\">") && SingleLine("</") && SingleLine(">");
    SingleLineAppend("<", k);
    SingleLineAppend("<" + k, " name=");
    SingleLineAppend("<" + k + " name=", Quote(r.name));
    SingleLineAppend("<" + k + " name=" + Quote(r.name), ">");
    SingleLineAppend("<" + k + " name=" + Quote(r.name) + ">", DefaultValue(k));
    SingleLineAppend("<" + k + " name=" + Quote(r.name) + ">" + DefaultValue(k), "</");
    SingleLineAppend("<" + k + " name=" + Quote(r.name) + ">" + DefaultValue(k) + "</", k);
    SingleLineAppend("<" + k + " name=" + Quote(r.name) + ">" + DefaultValue(k) + "</" + k, ">");
  }

  /** The replacement distributes over concatenation; the second part starts
      a line exactly when the first ends with a line terminator (or is empty
      and itself started one). */
  lemma {:induction false} StripAppend(x: string, y: string, b: bool)
    ensures StripIndent(x + y, b)
      == StripIndent(x, b) + StripIndent(y, if |x| == 0 then b else IsLineTerminator(x[|x| - 1]))
    decreases |x|
  {
    if |x| > 0 {
      var h := if b && IsWhiteSpace(x[0]) then "" else [x[0]];
      var c := IsLineTerminator(x[0]);
      var e := if |x[1..]| == 0 then c else IsLineTerminator(x[1..][|x[1..]| - 1]);
      assert (x + y)[0] == x[0] && (x + y)[1..] == x[1..] + y;
      StripAppend(x[1..], y, c);
      ConcatAssoc(h, StripIndent(x[1..], c), StripIndent(y, e));
      calc {
        StripIndent(x + y, b);
        h + StripIndent(x[1..] + y, c);
        h + (StripIndent(x[1..], c) + StripIndent(y, e));
        (h + StripIndent(x[1..], c)) + StripIndent(y, e);
        StripIndent(x, b) + StripIndent(y, e);
      }
    } else {
      assert x + y == y;
    }
  }

  /** Concatenation of texts regroups freely. */
  lemma ConcatAssoc(a: string, b: string, c: string)
    ensures a + (b + c) == (a + b) + c
  {
  }

  /** Inside a line nothing is removed. */
  lemma {:induction false} StripSingleLine(s: string)
    requires SingleLine(s)
    ensures StripIndent(s, false) == s
    decreases |s|
  {
    if |s| > 0 {
      StripSingleLine(s[1..]);
    }
  }

  /** Lines joined by newlines, each starting with one white-space character
      that does not end a line, lose exactly that character. */
  lemma {:induction false} StripLines(lines: seq<string>, out: seq<string>)
    requires |lines| == |out| >= 1
    requires forall j :: 0 <= j < |lines| ==>
      && |lines[j]| >= 1
      && IsWhiteSpace(lines[j][0]) && !IsLineTerminator(lines[j][0])
      && lines[j][1..] == out[j]
      && SingleLine(out[j])
    ensures StripIndent(Join(lines, '\n'), true) == Join(out, '\n')
    decreases |lines|
  {
    var l := lines[0];
    StripLine(l, out[0]);
    if |lines| > 1 {
      StripLines(lines[1..], out[1..]);
      JoinCons(l, lines[1..], '\n');
      JoinCons(out[0], out[1..], '\n');
      assert lines == [l] + lines[1..] && out == [out[0]] + out[1..];
      StripNextLine(l, Join(lines[1..], '\n'), out[0], Join(out[1..], '\n'));
    }
  }

  /** The step of `StripLines` past the first line: a line that loses its
      indentation and does not end in a terminator, a newline, and text
      that strips on its own. */
  lemma StripNextLine(l: string, rest: string, o: string, orest: string)
    requires |l| >= 1 && !IsLineTerminator(l[|l| - 1])
    requires StripIndent(l, true) == o && StripIndent(rest, true) == orest
    ensures StripIndent(l + "\n" + rest, true) == o + "\n" + orest
  {
    ConcatAssoc(l, "\n", rest);
    StripAppend(l, "\n" + rest, true);
    StripAppend("\n", rest, false);
    assert StripIndent("\n", false) == "\n";
    ConcatAssoc(o, "\n", orest);
  }

  /** One indented line loses its indentation, and does not end a line. */
  lemma StripLine(l: string, o: string)
    requires |l| >= 1 && IsWhiteSpace(l[0]) && !IsLineTerminator(l[0])
    requires l[1..] == o && SingleLine(o)
    ensures StripIndent(l, true) == o
    ensures !IsLineTerminator(l[|l| - 1])
  {
    assert l == [l[0]] + o;
    StripAppend([l[0]], o, true);
    StripSingleLine(o);
    if |l| > 1 {
      assert l[|l| - 1] == o[|o| - 1];
    }
  }

  /** A newline at the very start is itself removed. */
  lemma StripLeadingNewline(s: string)
    ensures StripIndent("\n" + s, true) == StripIndent(s, true)
  {
    assert ("\n" + s)[1..] == s;
  }

  /** Layout of a non-empty placeholder: the template, with the replacement
      applied, is the lines of `Layout` joined by newlines. */
  lemma PlaceholderLayout(refs: seq<Ref>)
    requires |refs| >= 1
    requires forall j :: 0 <= j < |refs| ==> WellFormed(refs[j])
    ensures StripIndent(RawDocument(refs), true) == Join(Layout(refs), '\n')
    ensures Split(StripIndent(RawDocument(refs), true), '\n') == Layout(refs)
  {
    var lines := RawLines(refs);
    var out := Layout(refs);
    RawDocumentLines(refs);
    StripLeadingNewline(Join(lines, '\n'));
    RawLinesIndented(refs);
    StripLines(lines, out);
    assert forall j :: 0 <= j < |out| ==> '\n' !in out[j];
    SplitJoin(out, '\n');
  }

  /** The template's lines before the replacement. */
  function RawLines(refs: seq<Ref>): seq<string>
    requires forall j :: 0 <= j < |refs| ==> WellFormed(refs[j])
  {
    ["\t" + Comment, "\t" + Open] + EntryLines(refs) + ["\t" + Close]
  }

  /** The template is a newline followed by its lines. */
  lemma RawDocumentLines(refs: seq<Ref>)
    requires |refs| >= 1
    requires forall j :: 0 <= j < |refs| ==> WellFormed(refs[j])
    ensures RawDocument(refs) == "\n" + Join(RawLines(refs), '\n')
  {
    JoinFramed("\n", "\t" + Comment, "\t" + Open, EntryLines(refs), "\t" + Close, '\n');
  }

  /** Joining two leading lines, a non-empty middle and a closing line. */
  lemma JoinFramed(pre: string, a: string, b: string, xs: seq<string>, c: string, sep: char)
    requires |xs| >= 1
    ensures pre + Join([a, b] + xs + [c], sep) == pre + a + [sep] + b + [sep] + Join(xs, sep) + [sep] + c
  {
    JoinAppend([a, b], xs, sep);
    JoinAppend([a, b] + xs, [c], sep);
    assert Join([a, b], sep) == a + [sep] + b;
  }

  /** Each template line is one indenting character followed by the matching
      layout line. */
  lemma RawLinesIndented(refs: seq<Ref>)
    requires |refs| >= 1
    requires forall j :: 0 <= j < |refs| ==> WellFormed(refs[j])
    ensures |RawLines(refs)| == |Layout(refs)|
    ensures forall j :: 0 <= j < |RawLines(refs)| ==>
      && |RawLines(refs)[j]| >= 1
      && IsWhiteSpace(RawLines(refs)[j][0]) && !IsLineTerminator(RawLines(refs)[j][0])
      && RawLines(refs)[j][1..] == Layout(refs)[j]
      && SingleLine(Layout(refs)[j])
  {
    var lines := RawLines(refs);
    var out := Layout(refs);
    forall j | 0 <= j < |lines|
      ensures && |lines[j]| >= 1
              && IsWhiteSpace(lines[j][0]) && !IsLineTerminator(lines[j][0])
              && lines[j][1..] == out[j]
              && SingleLine(out[j])
    {
      if j < 2 || j == |lines| - 1 {
        FrameLineIndented(refs, j);
      } else {
        EntryLineIndented(refs, j);
      }
    }
  }

  /** The comment and root-tag lines are indented by one tab. */
  lemma FrameLineIndented(refs: seq<Ref>, j: nat)
    requires forall j :: 0 <= j < |refs| ==> WellFormed(refs[j])
    requires j < 2 || j == |refs| + 2
    ensures j < |RawLines(refs)| && j < |Layout(refs)|
    ensures RawLines(refs)[j] == "\t" + Layout(refs)[j]
    ensures SingleLine(Layout(refs)[j])
  {
    assert SingleLine(Comment) && SingleLine(Open) && SingleLine(Close);
  }

  /** Each entry line is indented by one more space than its layout line. */
  lemma EntryLineIndented(refs: seq<Ref>, j: nat)
    requires forall j :: 0 <= j < |refs| ==> WellFormed(refs[j])
    requires 2 <= j < |refs| + 2
    ensures j < |RawLines(refs)| && j < |Layout(refs)|
    ensures RawLines(refs)[j] == " " + Layout(refs)[j]
    ensures SingleLine(Layout(refs)[j])
  {
    var e := Element(refs[j - 2]);
    ElementSingleLine(refs[j - 2]);
    SingleLineAppend(" ", e);
    assert RawLines(refs)[j] == EntryLines(refs)[j - 2] == "  " + e;
    assert Layout(refs)[j] == " " + e;
    DoubleSpace(e);
  }

  /** Two spaces of indentation are one space before a one-space line. */
  lemma DoubleSpace(e: string)
    ensures "  " + e == " " + (" " + e)
  {
    assert "  " == " " + " ";
  }

  /** The placeholder for text that writes out references lists exactly
      those references, one line each, in order and with repetitions. */
  lemma PlaceholderOfRendered(refs: seq<Ref>)
    requires |refs| >= 1
    requires forall j :: 0 <= j < |refs| ==> WellFormed(refs[j])
    ensures Split(CreateOverridePlaceholder(Render(refs)), '\n') == Layout(refs)
  {
    ScanRender(refs);
  }
}
