/** One line of a configuration text, spelled out: its indentation, and the name and the
    value it gives. */
module ConfigLine {
  import opened Text
  import opened ConfigTree

  predicate Blank(s: string) {
    forall k | 0 <= k < |s| :: s[k] == ' ' || s[k] == '\t'
  }

  predicate Spaces(s: string) {
    forall k | 0 <= k < |s| :: s[k] == ' '
  }

  predicate Unblank(s: string) {
    s != "" ==> s[0] != ' ' && s[0] != '\t'
  }

  predicate NameForm(s: string) {
    ':' !in s && Unblank(s) && (s != "" ==> s[|s| - 1] != ' ')
  }

  predicate ValueForm(s: string) {
    s != "" ==> s[0] != ' ' && s[|s| - 1] != ' '
  }

  /** The line is `name`, a ':' and `value`, with spaces around them, behind `lead`. */
  predicate Shape(line: string, name: string, value: string,
                  lead: string, after: string, before: string, behind: string)
  {
    && line == lead + (name + after + ":" + (before + value + behind))
    && Blank(lead) && Spaces(after) && Spaces(before) && Spaces(behind)
    && NameForm(name) && ValueForm(value) && (name == "" ==> after == "")
  }

  ghost predicate Says(line: string, name: string, value: string) {
    exists lead, after, before, behind :: Shape(line, name, value, lead, after, before, behind)
  }

  // ---------------------------------------------------------------- indentation

  lemma {:induction false} IndentOf(lead: string, text: string)
    requires Blank(lead) && Unblank(text)
    ensures Indent(lead + text) == |lead|
  {
    if lead == "" {
      assert lead + text == text;
    } else {
      assert (lead + text)[1..] == lead[1..] + text;
      IndentOf(lead[1..], text);
    }
  }

  /** The indentation is all the spaces and tabs in front, and nothing else. */
  lemma {:induction false} IndentIsBlank(line: string)
    ensures Blank(line[..Indent(line)]) && Unblank(line[Indent(line)..])
  {
    if line != "" && IsBlank(line[0]) {
      IndentIsBlank(line[1..]);
      var n := Indent(line[1..]);
      assert line[..n + 1] == [line[0]] + line[1..][..n] && line[n + 1..] == line[1..][n..];
    }
  }

  // ---------------------------------------------------------------- stripping

  lemma {:induction false} StripLeftOf(a: string, t: string)
    requires Spaces(a) && (t != "" ==> t[0] != ' ')
    ensures StripLeft(a + t) == t
  {
    if a == "" {
      assert a + t == t;
    } else {
      assert (a + t)[1..] == a[1..] + t;
      StripLeftOf(a[1..], t);
    }
  }

  lemma {:induction false} StripRightOf(t: string, b: string)
    requires Spaces(b) && (t != "" ==> t[|t| - 1] != ' ')
    ensures StripRight(t + b) == t
    decreases |b|
  {
    if b == "" {
      assert t + b == t;
    } else {
      var c := b[..|b| - 1];
      StripRightOf(t, c);
      assert (t + b)[..|t + b| - 1] == t + c;
    }
  }

  lemma StripOf(a: string, t: string, b: string)
    requires Spaces(a) && Spaces(b) && ValueForm(t)
    ensures Strip(a + t + b) == t
  {
    if t == "" {
      StripLeftOf(a + b, "");
      assert a + t + b == (a + b) + "";
    } else {
      StripLeftOf(a, t + b);
      assert a + t + b == a + (t + b);
      StripRightOf(t, b);
    }
  }

  lemma {:induction false} StripLeftSplits(s: string) returns (a: string)
    ensures Spaces(a) && s == a + StripLeft(s)
  {
    a := "";
    if s != "" && s[0] == ' ' {
      var rest := StripLeftSplits(s[1..]);
      a := [' '] + rest;
      Assoc([' '], rest, StripLeft(s));
      assert s == [' '] + s[1..];
    }
  }

  lemma {:induction false} StripRightSplits(s: string) returns (b: string)
    ensures Spaces(b) && s == StripRight(s) + b
    ensures StripRight(s) != "" ==> StripRight(s)[0] == s[0]
    decreases |s|
  {
    b := "";
    if s != "" && s[|s| - 1] == ' ' {
      var rest := StripRightSplits(s[..|s| - 1]);
      b := rest + [' '];
      Assoc(StripRight(s), rest, [' ']);
      assert s == s[..|s| - 1] + [' '];
    }
  }

  /** A text is what stripping leaves of it, between spaces. */
  lemma StripSplits(s: string) returns (a: string, b: string)
    ensures Spaces(a) && Spaces(b) && s == a + Strip(s) + b && ValueForm(Strip(s))
  {
    a := StripLeftSplits(s);
    b := StripRightSplits(StripLeft(s));
    Assoc(a, Strip(s), b);
  }

  // ---------------------------------------------------------------- the entry

  lemma ShapeParses(line: string, name: string, value: string, lead: string, after: string, before: string, behind: string)
    requires Shape(line, name, value, lead, after, before, behind)
    ensures Indent(line) == |lead| && EntryOf(line) == Some((name, value))
  {
    var left, right := name + after, before + value + behind;
    var text := left + ":" + right;
    assert Unblank(text) by { assert text[0] == if name == "" then ':' else name[0]; }
    IndentOf(lead, text);
    assert line[|lead|..] == text;
    assert ':' !in left;
    TextParses(left, right);
    StripOf("", name, after);
    assert "" + name + after == left;
    StripOf(before, value, behind);
  }

  lemma TextParses(left: string, right: string)
    requires ':' !in left
    ensures var text := left + ":" + right;
            var p := Find(text, ':');
            p == |left| && text[..p] == left && text[p + 1..] == right
  {
    FindAfter(left, ':', right);
  }

  lemma NamePart(left: string) returns (after: string)
    requires Unblank(left) && ':' !in left
    ensures left == Strip(left) + after && Spaces(after)
    ensures NameForm(Strip(left)) && (Strip(left) == "" ==> after == "")
  {
    after := StripRightSplits(left);
    assert StripLeft(left) == left;
    assert forall c | c in Strip(left) :: c in left;
  }

  lemma TextSplits(text: string, p: nat)
    requires p == Find(text, ':') < |text|
    ensures text == text[..p] + ":" + text[p + 1..] && ':' !in text[..p]
    ensures Unblank(text) ==> Unblank(text[..p])
  {
    FindFirst(text, ':');
    CutAt(text, p);
  }

  /** Taking a line with a ':' apart. */
  lemma ParsedShape(line: string)
    requires EntryOf(line).Some?
    ensures Says(line, EntryOf(line).value.0, EntryOf(line).value.1)
  {
    var lead, text := line[..Indent(line)], line[Indent(line)..];
    var p := Find(text, ':');
    IndentIsBlank(line);
    TextSplits(text, p);
    var after := NamePart(text[..p]);
    var before, behind := StripSplits(text[p + 1..]);
    assert line == lead + text;
    assert Shape(line, Strip(text[..p]), Strip(text[p + 1..]), lead, after, before, behind);
  }

  /** A line gives an entry exactly when it holds a ':', and then just the one name and
      value that it says. */
  lemma EntryIsRead(line: string)
    ensures EntryOf(line).None? <==> ':' !in line
    ensures forall name, value :: Says(line, name, value) <==> EntryOf(line) == Some((name, value))
  {
    var text := line[Indent(line)..];
    IndentIsBlank(line);
    FindFirst(text, ':');
    assert line == line[..Indent(line)] + text;
    assert text[..|text|] == text;
    if EntryOf(line).Some? { ParsedShape(line); }
    forall name, value | Says(line, name, value)
      ensures EntryOf(line) == Some((name, value))
    {
      var lead, after, before, behind :| Shape(line, name, value, lead, after, before, behind);
      ShapeParses(line, name, value, lead, after, before, behind);
    }
  }
}
