/** The section formatter of scraper.py (lines 92-123): the elements one
    locator finds on a detail page are turned, one after another, into text
    fragments that are appended to one running string, the section's text. */
module Formatter {
  import opened Errors
  import opened Text
  import Table

  /** A `li` of a list: its `class` attribute, absent or present, and its
      inner text. */
  datatype ListItem = ListItem(classAttr: Option<string>, text: string)

  /** A page element, by the tag name the loop dispatches on. */
  datatype Element =
      /** `h1` … `h5`: any tag name that starts with "h". */
    | Heading(text: string)
    | Paragraph(text: string)
      /** `ul`, with the `li` elements inside it. */
    | BulletList(items: seq<ListItem>)
      /** `table`, with the inner texts of the `th`/`td` cells of each `tr`. */
    | TableNode(rows: seq<seq<string>>)
      /** A `None` in the element list; the loop skips it. */
    | Missing

  const Bullet: string := "\U{25CF}"
  const Crossed: string := "\U{2612}"
  const Checked: string := "\U{2611}"

  /** The stripped inner text with every `<br>` replaced by a space. */
  function BreaksReplaced(raw: string): string {
    ReplaceAll(Strip(raw), "<br>", " ")
  }

  /** Inner text of a heading or paragraph: stripped, then every `<br>` and
      every newline turned into a space (line 97). The newline step maps
      each character on its own: a newline becomes a space, anything else is
      kept. */
  function Normalise(raw: string): (t: string)
    ensures '\n' !in t
    ensures |t| == |BreaksReplaced(raw)|
    ensures forall k :: 0 <= k < |t| ==>
      t[k] == if BreaksReplaced(raw)[k] == '\n' then ' ' else BreaksReplaced(raw)[k]
  {
    var noBreaks := BreaksReplaced(raw);
    ReplaceCharRemoves(noBreaks, '\n', " ");
    ReplaceCharPointwise(noBreaks, '\n', ' ');
    assert "\n" == ['\n'] && " " == [' '];
    ReplaceAll(noBreaks, "\n", " ")
  }

  /** When the stripped text holds no `<br>`, normalising keeps its length and
      it neither starts nor ends with whitespace. */
  lemma NormaliseStripped(raw: string)
    requires forall i :: 0 <= i <= |Strip(raw)| - 4 ==> !OccursAt(Strip(raw), "<br>", i)
    ensures |Normalise(raw)| == |Strip(raw)|
    ensures Normalise(raw) == [] || (!IsSpace(Normalise(raw)[0]) && !IsSpace(Normalise(raw)[|Normalise(raw)| - 1]))
    ensures forall k :: 0 <= k < |Strip(raw)| ==>
      Normalise(raw)[k] == if Strip(raw)[k] == '\n' then ' ' else Strip(raw)[k]
  {
    var s := Strip(raw);
    ReplaceAbsent(s, "<br>", " ");
    assert BreaksReplaced(raw) == s;
    var t := Normalise(raw);
    if t != [] {
      assert IsSpace('\n');
      assert t[0] == s[0];
      assert t[|t| - 1] == s[|s| - 1];
    }
  }

  /** The status glyph of a list item: a bullet when the class attribute is
      absent or empty, a crossed box for `status_2`, a checked box for any
      other class (lines 108-113). */
  function Glyph(classAttr: Option<string>): (g: string)
    ensures g == Bullet <==> classAttr == None || classAttr == Some("")
    ensures g == Crossed <==> classAttr == Some("status_2")
    ensures g == Checked <==> classAttr.Some? && classAttr.value != "" && classAttr.value != "status_2"
  {
    match classAttr
    case None => Bullet
    case Some(c) => if c == "" then Bullet else if c == "status_2" then Crossed else Checked
  }

  /** One list item's line without its newline: glyph, space, stripped text. */
  function ItemText(item: ListItem): (line: string)
    ensures '\n' in line <==> '\n' in Strip(item.text)
  {
    var g := Glyph(item.classAttr);
    assert '\n' !in g by {
      assert g == Bullet || g == Crossed || g == Checked;
    }
    var line := g + " " + Strip(item.text);
    assert line[|g| + 1..] == Strip(item.text);
    line
  }

  /** The fragment of a `ul`: one newline-terminated line per item (line 114). */
  function ListFragment(items: seq<ListItem>): (f: string)
    ensures f == [] <==> items == []
    ensures items != [] ==> f[|f| - 1] == '\n'
    decreases |items|
  {
    if items == [] then ""
    else
      var rest := ListFragment(items[1..]);
      var f := ItemText(items[0]) + "\n" + rest;
      assert rest != [] ==> f[|f| - 1] == rest[|rest| - 1];
      f
  }

  /** The lines of a list, without their newlines, in item order. */
  function ItemTexts(items: seq<ListItem>): (lines: seq<string>)
    ensures |lines| == |items|
    decreases |items|
  {
    if items == [] then [] else [ItemText(items[0])] + ItemTexts(items[1..])
  }

  /** The list fragment is one line per item, in item order, each ended by a
      newline, when no item's text holds a newline. */
  lemma {:induction false} ListLines(items: seq<ListItem>)
    requires forall k :: 0 <= k < |items| ==> '\n' !in Strip(items[k].text)
    ensures Split(ListFragment(items), '\n') == ItemTexts(items) + [""]
    decreases |items|
  {
    if items != [] {
      var tail := items[1..];
      forall k | 0 <= k < |tail|
        ensures '\n' !in Strip(tail[k].text)
      {
        assert tail[k] == items[k + 1];
      }
      ListLines(tail);
      var t := ItemText(items[0]);
      assert '\n' !in Strip(items[0].text);
      var rest := ListFragment(tail);
      SplitAfterPiece(t, '\n', rest);
      assert ListFragment(items) == t + ['\n'] + rest;
      ConsSnoc(t, ItemTexts(tail), "");
    }
  }

  /** The cells of a table, each stripped (line 117). */
  function StripCells(rows: seq<seq<string>>): (cells: seq<seq<string>>)
    ensures |cells| == |rows|
    ensures forall k :: 0 <= k < |rows| ==> |cells[k]| == |rows[k]|
    ensures forall k, i :: 0 <= k < |rows| && 0 <= i < |rows[k]| ==> cells[k][i] == Strip(rows[k][i])
  {
    seq(|rows|, k requires 0 <= k < |rows| => seq(|rows[k]|, i requires 0 <= i < |rows[k]| => Strip(rows[k][i])))
  }

  /** The fragment one element appends to the section text (lines 99-121):
      only a table can fail, with the renderer's index error, and a `None`
      contributes nothing. */
  function Fragment(e: Element): (r: Result<string>)
    ensures r.Err? ==> e.TableNode? && r.error == TableIndexError
    ensures e.Missing? ==> r == Ok("")
  {
    match e
    case Heading(text) => Ok("\n" + Normalise(text) + "\n\n")
    case Paragraph(text) => Ok("\n" + Normalise(text) + "\n")
    case BulletList(items) => Ok(ListFragment(items))
    case TableNode(rows) => Table.Render(StripCells(rows))
    case Missing => Ok("")
  }

  /** Only a table fragment can fail, and exactly when the table has no rows
      or rows of differing lengths. */
  lemma FragmentFails(e: Element)
    ensures Fragment(e).Err? <==> e.TableNode? && (e.rows == [] || !Table.Rectangular(e.rows))
  {
    if e.TableNode? {
      var cells := StripCells(e.rows);
      assert Table.Rectangular(cells) <==> Table.Rectangular(e.rows);
    }
  }

  /** A line framed by line breaks as a heading frames it. */
  lemma HeadingShape(t: string)
    requires '\n' !in t
    ensures Split("\n" + t + "\n\n", '\n') == ["", t, "", ""]
  {
    var blank: string := [];
    var tail := blank + ['\n'] + blank;
    var body := t + ['\n'] + tail;
    var whole := blank + ['\n'] + body;
    SplitAfterPiece(blank, '\n', blank);
    SplitAfterPiece(t, '\n', tail);
    SplitAfterPiece(blank, '\n', body);
    assert Split(tail, '\n') == ["", ""];
    assert "\n" + t + "\n\n" == whole;
  }

  /** A heading is its text on a line of its own followed by a blank line. */
  lemma HeadingLines(text: string)
    ensures Split(Fragment(Heading(text)).value, '\n') == ["", Normalise(text), "", ""]
  {
    HeadingShape(Normalise(text));
  }

  /** A line framed by line breaks as a paragraph frames it. */
  lemma ParagraphShape(t: string)
    requires '\n' !in t
    ensures Split("\n" + t + "\n", '\n') == ["", t, ""]
  {
    var blank: string := [];
    var body := t + ['\n'] + blank;
    var whole := blank + ['\n'] + body;
    SplitAfterPiece(t, '\n', blank);
    SplitAfterPiece(blank, '\n', body);
    assert Split(body, '\n') == [t, ""];
    assert "\n" + t + "\n" == whole;
  }

  /** A paragraph is its text on a line of its own. */
  lemma ParagraphLines(text: string)
    ensures Split(Fragment(Paragraph(text)).value, '\n') == ["", Normalise(text), ""]
  {
    ParagraphShape(Normalise(text));
  }

  /** Some element of the list is not `None`. */
  predicate AnyPresent(es: seq<Element>) {
    exists k :: 0 <= k < |es| && !es[k].Missing?
  }

  /** Every element's fragment can be formed. */
  predicate AllFormattable(es: seq<Element>) {
    forall k {:trigger Fragment(es[k])} :: 0 <= k < |es| ==> Fragment(es[k]).Ok?
  }

  /** A list is formattable exactly when its prefix is and its last element is. */
  lemma AllFormattableSnoc(es: seq<Element>)
    requires es != []
    ensures AllFormattable(es) <==> AllFormattable(es[..|es| - 1]) && Fragment(es[|es| - 1]).Ok?
  {
    var init := es[..|es| - 1];
    if AllFormattable(init) && Fragment(es[|es| - 1]).Ok? {
      forall k | 0 <= k < |es|
        ensures Fragment(es[k]).Ok?
      {
        if k < |init| {
          assert init[k] == es[k];
          assert Fragment(init[k]).Ok?;
        } else {
          assert k == |es| - 1;
        }
      }
    }
    if AllFormattable(es) {
      forall k | 0 <= k < |init|
        ensures Fragment(init[k]).Ok?
      {
        assert init[k] == es[k];
        assert Fragment(es[k]).Ok?;
      }
    }
  }

  /** The running string after every element of `es`: the fragments of the
      present elements in order, or the first failure. */
  function Joined(es: seq<Element>): (r: Result<string>)
    ensures r.Ok? <==> AllFormattable(es)
    decreases |es|
  {
    if es == [] then Ok("")
    else
      AllFormattableSnoc(es);
      match Joined(es[..|es| - 1])
      case Err(e) => Err(e)
      case Ok(s) =>
        var last := es[|es| - 1];
        if last.Missing? then Ok(s)
        else match Fragment(last)
          case Err(e) => Err(e)
          case Ok(f) => Ok(s + f)
  }

  /** The text a section ends with: unset when no element was processed,
      otherwise the running string (line 123 runs inside the element loop). */
  function SectionText(es: seq<Element>): (r: Result<Option<string>>)
    ensures r.Ok? <==> AllFormattable(es)
    ensures r.Ok? ==> (r.value == None <==> forall k :: 0 <= k < |es| ==> es[k].Missing?)
  {
    match Joined(es)
    case Err(e) => Err(e)
    case Ok(s) => Ok(if AnyPresent(es) then Some(s) else None)
  }

  /** Once the running string has failed, further elements keep that failure. */
  lemma {:induction false} JoinedAppendLeftFails(a: seq<Element>, b: seq<Element>)
    requires Joined(a).Err?
    ensures Joined(a + b) == Joined(a)
    decreases |b|
  {
    if b == [] {
      assert a + b == a;
    } else {
      var init := b[..|b| - 1];
      JoinedAppendLeftFails(a, init);
      assert (a + b)[..|a + b| - 1] == a + init;
    }
  }

  lemma Associative(x: string, y: string, z: string)
    ensures x + y + z == x + (y + z)
  {
  }

  lemma ConsSnoc(x: string, xs: seq<string>, y: string)
    ensures [x] + xs + [y] == [x] + (xs + [y])
  {
  }

  lemma PrefixSnoc(es: seq<Element>, i: nat)
    requires i < |es|
    ensures es[..i + 1] == es[..i] + [es[i]]
    ensures es[..i + 1] + es[i + 1..] == es
  {
  }

  lemma SnocParts(a: seq<Element>, b: seq<Element>)
    requires b != []
    ensures b == b[..|b| - 1] + [b[|b| - 1]]
    ensures a + b == (a + b[..|b| - 1]) + [b[|b| - 1]]
  {
  }

  /** One more element extends the running string by its fragment. */
  lemma JoinedSnoc(es: seq<Element>, last: Element)
    requires Joined(es).Ok?
    ensures Joined(es + [last]) ==
      if last.Missing? then Joined(es)
      else match Fragment(last)
        case Err(e) => Err(e)
        case Ok(f) => Ok(Joined(es).value + f)
  {
    assert (es + [last])[..|es|] == es;
  }

  /** The running string of a concatenation is the concatenation of the
      running strings. */
  lemma {:induction false} JoinedAppendOk(a: seq<Element>, b: seq<Element>)
    requires Joined(a).Ok? && Joined(b).Ok?
    ensures Joined(a + b) == Ok(Joined(a).value + Joined(b).value)
    decreases |b|
  {
    if b == [] {
      assert a + b == a;
      assert Joined(a).value + "" == Joined(a).value;
    } else {
      var init := b[..|b| - 1];
      var last := b[|b| - 1];
      SnocParts(a, b);
      assert Joined(init).Ok?;
      JoinedAppendOk(a, init);
      JoinedSnoc(init, last);
      JoinedSnoc(a + init, last);
      if !last.Missing? && Fragment(last).Ok? {
        Associative(Joined(a).value, Joined(init).value, Fragment(last).value);
      }
    }
  }

  /** A failure after a succeeding prefix is the failure of the suffix alone. */
  lemma {:induction false} JoinedAppendRightFails(a: seq<Element>, b: seq<Element>)
    requires Joined(a).Ok? && Joined(b).Err?
    ensures Joined(a + b) == Joined(b)
    decreases |b|
  {
    var init := b[..|b| - 1];
    var last := b[|b| - 1];
    assert (a + b)[..|a + b| - 1] == a + init;
    assert (a + b)[|a + b| - 1] == last;
    if Joined(init).Err? {
      JoinedAppendRightFails(a, init);
    } else {
      JoinedAppendOk(a, init);
    }
  }

  /** A list of `None`s leaves the running string empty. */
  lemma {:induction false} JoinedNothingPresent(es: seq<Element>)
    requires forall k :: 0 <= k < |es| ==> es[k].Missing?
    ensures Joined(es) == Ok("")
    decreases |es|
  {
    if es != [] {
      JoinedNothingPresent(es[..|es| - 1]);
    }
  }

  /** A section is left unset exactly when it has no element other than `None`. */
  lemma SectionUnsetIffNothingPresent(es: seq<Element>)
    ensures SectionText(es) == Ok(None) <==> forall k :: 0 <= k < |es| ==> es[k].Missing?
  {
    if forall k :: 0 <= k < |es| ==> es[k].Missing? {
      JoinedNothingPresent(es);
    }
  }

  lemma AnyPresentSkipsMissing(a: seq<Element>, b: seq<Element>)
    ensures AnyPresent(a + [Missing] + b) <==> AnyPresent(a + b)
  {
    var withGap := a + [Missing] + b;
    if AnyPresent(withGap) {
      var k :| 0 <= k < |withGap| && !withGap[k].Missing?;
      if k < |a| {
        assert (a + b)[k] == withGap[k];
      } else {
        assert k > |a|;
        assert (a + b)[k - 1] == withGap[k];
      }
    }
    if AnyPresent(a + b) {
      var k :| 0 <= k < |a + b| && !(a + b)[k].Missing?;
      if k < |a| {
        assert withGap[k] == (a + b)[k];
      } else {
        assert withGap[k + 1] == (a + b)[k];
      }
    }
  }

  /** A `None` anywhere in the list changes nothing. */
  lemma SectionSkipsMissing(a: seq<Element>, b: seq<Element>)
    ensures SectionText(a + [Missing] + b) == SectionText(a + b)
  {
    assert Joined([Missing]) == Ok("") by {
      assert [Missing][..0] == [];
    }
    AnyPresentSkipsMissing(a, b);
    var gap := a + [Missing];
    if Joined(a).Err? {
      JoinedAppendLeftFails(a, [Missing]);
      JoinedAppendLeftFails(gap, b);
      JoinedAppendLeftFails(a, b);
    } else {
      JoinedAppendOk(a, [Missing]);
      assert Joined(a).value + "" == Joined(a).value;
      assert Joined(gap) == Joined(a);
      if Joined(b).Err? {
        JoinedAppendRightFails(gap, b);
        JoinedAppendRightFails(a, b);
      } else {
        JoinedAppendOk(gap, b);
        JoinedAppendOk(a, b);
      }
    }
  }

  /** A `None` at the end of a prefix leaves `AnyPresent` as it was. */
  lemma AnyPresentStep(es: seq<Element>, i: nat)
    requires i < |es| && es[i].Missing?
    ensures AnyPresent(es[..i + 1]) <==> AnyPresent(es[..i])
  {
    if AnyPresent(es[..i + 1]) {
      var k :| 0 <= k < i + 1 && !es[..i + 1][k].Missing?;
      assert k < i && es[..i][k] == es[..i + 1][k];
    }
    if AnyPresent(es[..i]) {
      var k :| 0 <= k < i && !es[..i][k].Missing?;
      assert es[..i + 1][k] == es[..i][k];
    }
  }

  /** The formatter loop of one section: `entry_string` grows by each present
      element's fragment and `section.text` is reassigned after every present
      element; a failing table aborts. */
  method FormatSection(es: seq<Element>) returns (r: Result<Option<string>>)
    ensures r == SectionText(es)
  {
    var entryString := "";
    var text: Option<string> := None;
    var i := 0;
    while i < |es|
      invariant 0 <= i <= |es|
      invariant Joined(es[..i]) == Ok(entryString)
      invariant text == if AnyPresent(es[..i]) then Some(entryString) else None
    {
      var e := es[i];
      PrefixSnoc(es, i);
      JoinedSnoc(es[..i], e);
      if !e.Missing? {
        var fragment := Fragment(e);
        if fragment.Err? {
          JoinedAppendLeftFails(es[..i + 1], es[i + 1..]);
          PrefixSnoc(es, i);
          return Err(fragment.error);
        }
        entryString := entryString + fragment.value;
        text := Some(entryString);
        assert AnyPresent(es[..i + 1]) by {
          assert !es[..i + 1][i].Missing?;
        }
      } else {
        AnyPresentStep(es, i);
      }
      i := i + 1;
    }
    assert es[..i] == es;
    r := Ok(text);
  }
}
