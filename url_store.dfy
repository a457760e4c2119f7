/** The text format of the persisted URL list (scraper.py, lines 137-146):
    `write_urls_txt` writes every URL followed by a newline and
    `read_urls_txt` reads the file back with `str.splitlines`. */
module UrlStore {

  /** The characters `str.splitlines` breaks at ("\r\n" counts as one break). */
  predicate IsLineBreak(c: char) {
    || c == '\n' || c == '\r' || c == '\U{0b}' || c == '\U{0c}'
    || c == '\U{1c}' || c == '\U{1d}' || c == '\U{1e}'
    || c == '\U{85}' || c == '\U{2028}' || c == '\U{2029}'
  }

  /** No line-break character occurs in `s`. */
  predicate SingleLine(s: string) {
    forall k :: 0 <= k < |s| ==> !IsLineBreak(s[k])
  }

  /** The file contents `write_urls_txt(urls)` produces: empty for no URLs,
      otherwise ending with a newline, and starting with the first URL. */
  function Serialise(urls: seq<string>): (file: string)
    ensures file == [] <==> urls == []
    ensures urls != [] ==> file[|file| - 1] == '\n' && urls[0] <= file
    decreases |urls|
  {
    if urls == [] then ""
    else
      var rest := Serialise(urls[1..]);
      var file := urls[0] + "\n" + rest;
      assert rest != [] ==> file[|file| - 1] == rest[|rest| - 1];
      assert file[..|urls[0]|] == urls[0];
      file
  }

  /** Index of the first line break in `s`, or `|s|` when there is none. */
  function LineEnd(s: string): (i: nat)
    ensures i <= |s|
    ensures i < |s| ==> IsLineBreak(s[i])
    ensures SingleLine(s[..i])
    decreases |s|
  {
    if s == [] || IsLineBreak(s[0]) then 0
    else
      var i := 1 + LineEnd(s[1..]);
      assert s[..i] == [s[0]] + s[1..][..i - 1];
      i
  }

  /** `s.splitlines()`: the lines of `s` without their line breaks; a final
      line break does not start an empty last line. */
  function SplitLines(s: string): (lines: seq<string>)
    ensures forall k :: 0 <= k < |lines| ==> SingleLine(lines[k])
    ensures s == [] <==> lines == []
    decreases |s|
  {
    if s == [] then []
    else
      var i := LineEnd(s);
      if i == |s| then [s]
      else
        var next := if s[i] == '\r' && i + 1 < |s| && s[i + 1] == '\n' then i + 2 else i + 1;
        [s[..i]] + SplitLines(s[next..])
  }

  /** The file of `a + b` is the file of `a` followed by the file of `b`, so
      extending the list only appends to the file. */
  lemma {:induction false} SerialiseAppend(a: seq<string>, b: seq<string>)
    ensures Serialise(a + b) == Serialise(a) + Serialise(b)
    decreases |a|
  {
    if a == [] {
      assert a + b == b;
    } else {
      SerialiseAppend(a[1..], b);
      assert (a + b)[1..] == a[1..] + b;
    }
  }

  /** One more URL adds its own line at the end of the file. */
  lemma SerialiseSnoc(urls: seq<string>, i: nat)
    requires i < |urls|
    ensures Serialise(urls[..i + 1]) == Serialise(urls[..i]) + urls[i] + "\n"
  {
    SerialiseAppend(urls[..i], [urls[i]]);
    assert urls[..i + 1] == urls[..i] + [urls[i]];
    assert Serialise([urls[i]]) == urls[i] + "\n" + Serialise([]);
  }

  lemma LineEndOfLine(u: string, rest: string)
    requires SingleLine(u)
    ensures LineEnd(u + "\n" + rest) == |u|
    decreases |u|
  {
    if u != [] {
      LineEndOfLine(u[1..], rest);
      assert (u + "\n" + rest)[1..] == u[1..] + "\n" + rest;
    }
  }

  /** Reading back what was written gives the same URLs in the same order,
      when no URL holds a line break; the empty list gives the empty file and
      back. */
  lemma {:induction false} RoundTrip(urls: seq<string>)
    requires forall k :: 0 <= k < |urls| ==> SingleLine(urls[k])
    ensures SplitLines(Serialise(urls)) == urls
    decreases |urls|
  {
    if urls != [] {
      var u := urls[0];
      var rest := Serialise(urls[1..]);
      var s := u + "\n" + rest;
      LineEndOfLine(u, rest);
      assert s[..|u|] == u;
      assert s[|u|] == '\n';
      assert s[|u| + 1..] == rest;
      RoundTrip(urls[1..]);
    }
  }

  /** The line-break condition is needed: a URL holding a carriage return
      comes back as two. */
  lemma CarriageReturnSplits()
    ensures SplitLines(Serialise(["a\rb"])) == ["a", "b"]
  {
    var s := Serialise(["a\rb"]);
    assert s == "a\rb\n";
    assert LineEnd(s) == 1 by {
      assert s[1..] == "\rb\n";
    }
    assert s[..1] == "a";
    assert s[2..] == "b\n";
    var t := "b\n";
    assert LineEnd(t) == 1 by {
      assert t[1..] == "\n";
    }
    assert t[..1] == "b";
    assert t[2..] == [];
    assert SplitLines(t) == ["b"];
    assert SplitLines(s) == ["a"] + SplitLines(t);
  }

  /** Every line read back is a single line, so re-serialising what was read
      and reading it again is stable. */
  lemma ReadWriteRead(s: string)
    ensures SplitLines(Serialise(SplitLines(s))) == SplitLines(s)
  {
    RoundTrip(SplitLines(s));
  }
}
