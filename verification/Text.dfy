/** Strings as the C++ sources use them: searching, trimming, lower-casing and
    replacing (src/util/string_util.cpp). A position equal to the length of the
    string plays the part of std::string::npos for a one-character search. */
module Text {

  datatype Option<+T> = None | Some(value: T)

  // ---------------------------------------------------------------- searching

  /** The first position of `c`, or |s|. */
  function Find(s: string, c: char): (i: nat)
    ensures i <= |s|
    ensures i < |s| ==> s[i] == c
  {
    if s == "" || s[0] == c then 0 else 1 + Find(s[1..], c)
  }

  lemma {:induction false} FindFirst(s: string, c: char)
    ensures c !in s[..Find(s, c)]
  {
    if s != "" && s[0] != c {
      FindFirst(s[1..], c);
      var i := Find(s[1..], c);
      assert s[..1 + i] == [s[0]] + s[1..][..i];
    }
  }

  /** `Find` is the only position of `c` with none in front of it, or the end. */
  lemma FindUnique(s: string, c: char, i: nat)
    requires i <= |s|
    requires i < |s| ==> s[i] == c
    requires c !in s[..i]
    ensures Find(s, c) == i
  {
    FindFirst(s, c);
    var j := Find(s, c);
    assert forall k | 0 <= k < i :: s[..i][k] == s[k];
    assert forall k | 0 <= k < j :: s[..j][k] == s[k];
  }

  lemma FindAfter(a: string, c: char, b: string)
    requires c !in a
    ensures Find(a + [c] + b, c) == |a|
    ensures (a + [c] + b)[..|a|] == a && (a + [c] + b)[|a| + 1..] == b
  {
    FindUnique(a + [c] + b, c, |a|);
  }

  lemma CutAt(s: string, p: nat)
    requires p < |s|
    ensures s == s[..p] + [s[p]] + s[p + 1..]
  {}

  lemma FindNone(s: string, c: char)
    requires c !in s
    ensures Find(s, c) == |s|
  {
    assert s[..|s|] == s;
    FindUnique(s, c, |s|);
  }

  /** `pat` occurs in `s` at position `i`. */
  predicate At(s: string, pat: string, i: int) {
    0 <= i && i + |pat| <= |s| && Agree(s, pat, i, 0)
  }

  /** From its position `k` on, `pat` agrees with `s` shifted by `i`. */
  predicate Agree(s: string, pat: string, i: nat, k: nat)
    requires k <= |pat| && i + |pat| <= |s|
    decreases |pat| - k
  {
    k == |pat| || (s[i + k] == pat[k] && Agree(s, pat, i, k + 1))
  }

  lemma {:induction false} AgreeIsPointwise(s: string, pat: string, i: nat, k: nat)
    requires k <= |pat| && i + |pat| <= |s|
    ensures Agree(s, pat, i, k) <==> forall m | k <= m < |pat| :: s[i + m] == pat[m]
    decreases |pat| - k
  {
    if k < |pat| {
      AgreeIsPointwise(s, pat, i, k + 1);
    }
  }

  predicate Contains(s: string, pat: string) {
    exists i :: 0 <= i <= |s| && At(s, pat, i)
  }

  lemma AtSlice(s: string, pat: string, i: nat)
    requires i + |pat| <= |s|
    ensures At(s, pat, i) <==> s[i..i + |pat|] == pat
  {
    AgreeIsPointwise(s, pat, i, 0);
    var t := s[i..i + |pat|];
    assert forall m | 0 <= m < |pat| :: t[m] == s[i + m];
  }

  /** `pat` occurs in `s` nowhere from `lo` up to, not including, `hi`. */
  ghost predicate NotWithin(s: string, pat: string, lo: int, hi: int) {
    forall k | lo <= k < hi :: !At(s, pat, k)
  }

  /** std::string::find(pat, from). */
  function FindStr(s: string, pat: string, from: nat): (r: Option<nat>)
    requires from <= |s|
    ensures r.Some? ==> from <= r.value && At(s, pat, r.value)
    decreases |s| - from
  {
    if At(s, pat, from) then Some(from)
    else if from == |s| then None
    else FindStr(s, pat, from + 1)
  }

  /** `FindStr` returns the first occurrence, and only that. */
  lemma {:induction false} FindStrFirst(s: string, pat: string, from: nat, r: Option<nat>)
    requires from <= |s|
    ensures FindStr(s, pat, from) == r <==>
            match r
            case None => NotWithin(s, pat, from, |s| + 1)
            case Some(p) => from <= p && At(s, pat, p) && NotWithin(s, pat, from, p)
    decreases |s| - from
  {
    if !At(s, pat, from) && from < |s| {
      FindStrFirst(s, pat, from + 1, r);
    }
  }

  /** A pattern that occurs across a character it does not hold occurs on one side of it. */
  lemma ContainsAround(a: string, c: char, b: string, pat: string)
    requires c !in pat
    requires Contains(a + [c] + b, pat)
    ensures Contains(a, pat) || Contains(b, pat)
  {
    var s := a + [c] + b;
    var i :| 0 <= i <= |s| && At(s, pat, i);
    AgreeIsPointwise(s, pat, i, 0);
    assert forall m | i <= m < i + |pat| :: s[m] == pat[m - i];
    assert s[|a|] == c;
    if i + |pat| <= |a| {
      AgreeIsPointwise(a, pat, i, 0);
      assert At(a, pat, i);
    } else if i > |a| {
      var j := i - |a| - 1;
      AgreeIsPointwise(b, pat, j, 0);
      assert At(b, pat, j);
    }
  }

  /** If a pattern's first character is missing, the pattern is. */
  lemma ContainsNeedsHead(s: string, pat: string)
    requires pat != "" && pat[0] !in s
    ensures !Contains(s, pat)
  {
    forall i | 0 <= i <= |s|
      ensures !At(s, pat, i)
    {
    }
  }

  // --------------------------------------------------------------- characters

  /** std::isspace in the "C" locale. */
  predicate IsSpace(c: char) {
    c == ' ' || '\t' <= c <= '\r'
  }

  /** Blank, tab, line feed, vertical tab, form feed and carriage return. */
  lemma SpaceIs(c: char)
    ensures IsSpace(c) <==> c in {' ', '\t', '\n', 11 as char, 12 as char, '\r'}
  {}

  predicate AllSpace(s: string) {
    forall k | 0 <= k < |s| :: IsSpace(s[k])
  }

  /** No white space at either end. */
  predicate Trimmed(s: string) {
    s != "" ==> !IsSpace(s[0]) && !IsSpace(s[|s| - 1])
  }

  function TrimLeft(s: string): (t: string)
    ensures |t| <= |s| && (t != "" ==> !IsSpace(t[0]))
  {
    if s != "" && IsSpace(s[0]) then TrimLeft(s[1..]) else s
  }

  function TrimRight(s: string): (t: string)
    ensures |t| <= |s| && (t != "" ==> !IsSpace(t[|t| - 1]))
  {
    if s != "" && IsSpace(s[|s| - 1]) then TrimRight(s[..|s| - 1]) else s
  }

  function Trim(s: string): string {
    TrimRight(TrimLeft(s))
  }

  /** `Trim` leaves no outer white space, whatever it is given. */
  lemma {:induction false} TrimIsTrimmed(s: string)
    ensures Trimmed(Trim(s))
  {
    TrimRightKeepsHead(TrimLeft(s));
  }

  lemma {:induction false} TrimRightKeepsHead(s: string)
    ensures TrimRight(s) != "" ==> s != "" && TrimRight(s)[0] == s[0]
    decreases |s|
  {
    if s != "" && IsSpace(s[|s| - 1]) { TrimRightKeepsHead(s[..|s| - 1]); }
  }

  lemma {:induction false} TrimLeftUnique(a: string, t: string)
    requires AllSpace(a) && (t != "" ==> !IsSpace(t[0]))
    ensures TrimLeft(a + t) == t
    decreases |a|
  {
    if a == "" {
      assert a + t == t;
    } else {
      assert (a + t)[1..] == a[1..] + t;
      TrimLeftUnique(a[1..], t);
    }
  }

  lemma {:induction false} TrimRightUnique(t: string, b: string)
    requires AllSpace(b) && (t != "" ==> !IsSpace(t[|t| - 1]))
    ensures TrimRight(t + b) == t
    decreases |b|
  {
    if b == "" {
      assert t + b == t;
    } else {
      var c := b[..|b| - 1];
      TrimRightUnique(t, c);
      var s := t + b;
      assert s[..|s| - 1] == t + c;
      assert s[|s| - 1] == b[|b| - 1];
    }
  }

  /** `Trim` removes the outer white space and nothing else. */
  lemma TrimAround(a: string, t: string, b: string)
    requires AllSpace(a) && Trimmed(t) && AllSpace(b)
    ensures Trim(a + t + b) == t
  {
    if t == "" {
      TrimLeftUnique(a + b, "");
      assert a + t + b == (a + b) + "";
    } else {
      TrimLeftUnique(a, t + b);
      assert a + t + b == a + (t + b);
      TrimRightUnique(t, b);
    }
  }

  lemma TrimTrimmed(t: string)
    requires Trimmed(t)
    ensures Trim(t) == t
  {
    TrimAround("", t, "");
    assert "" + t + "" == t;
  }

  /** trim: both ends, in place. */
  method TrimInPlace(s: string) returns (t: string)
    ensures t == Trim(s)
  {
    t := s;
    while t != "" && IsSpace(t[0])
      invariant TrimLeft(t) == TrimLeft(s)
      decreases |t|
    {
      t := t[1..];
    }
    while t != "" && IsSpace(t[|t| - 1])
      invariant TrimRight(t) == Trim(s)
      decreases |t|
    {
      t := t[..|t| - 1];
    }
  }

  function LowerChar(c: char): char {
    if 'A' <= c <= 'Z' then c + 32 as char else c
  }

  function Lower(s: string): (t: string)
    ensures |t| == |s|
  {
    seq(|s|, k requires 0 <= k < |s| => LowerChar(s[k]))
  }

  /** The capitals become the small letters, and every other character stays. */
  lemma LowerCharIs(c: char)
    ensures forall k | 0 <= k < 26 ::
        LowerChar("ABCDEFGHIJKLMNOPQRSTUVWXYZ"[k]) == "abcdefghijklmnopqrstuvwxyz"[k]
    ensures c !in "ABCDEFGHIJKLMNOPQRSTUVWXYZ" ==> LowerChar(c) == c
  {
    forall k | 0 <= k < 26
      ensures "ABCDEFGHIJKLMNOPQRSTUVWXYZ"[k] == 'A' + k as char
      ensures "abcdefghijklmnopqrstuvwxyz"[k] == 'a' + k as char
    {}
    if 'A' <= c <= 'Z' {
      var k := c as int - 'A' as int;
      assert "ABCDEFGHIJKLMNOPQRSTUVWXYZ"[k] == 'A' + k as char == c;
    }
  }

  lemma LowerTwice(s: string)
    ensures Lower(Lower(s)) == Lower(s)
  {}

  /** A character that is not a capital letter stays where it is; no capital is left. */
  lemma LowerKeeps(s: string, c: char)
    requires !('A' <= c <= 'Z') && !('a' <= c <= 'z')
    ensures c in Lower(s) <==> c in s
  {
    if c in s {
      var k :| 0 <= k < |s| && s[k] == c;
      assert Lower(s)[k] == c;
    }
    if c in Lower(s) {
      var k :| 0 <= k < |s| && Lower(s)[k] == c;
      assert s[k] == c;
    }
  }

  /** strtolower: overwrites the capitals by index. */
  method StrToLower(str: string) returns (r: string)
    ensures r == Lower(str)
  {
    r := str;
    for i := 0 to |str|
      invariant |r| == |str|
      invariant forall k | 0 <= k < i :: r[k] == LowerChar(str[k])
      invariant forall k | i <= k < |str| :: r[k] == str[k]
    {
      if 'A' <= r[i] <= 'Z' {
        r := r[i := r[i] + 32 as char];
      }
    }
  }

  // ---------------------------------------------------------------- replacing

  /** The pieces of s[i..] between the leftmost, non-overlapping occurrences of `from`. */
  function SplitFrom(s: string, from: string, i: nat): (ps: seq<string>)
    requires from != "" && i <= |s|
    ensures ps != []
    decreases |s| - i
  {
    match FindStr(s, from, i)
    case None => [s[i..]]
    case Some(p) => [s[i..p]] + SplitFrom(s, from, p + |from|)
  }

  function Split(s: string, from: string): (ps: seq<string>)
    requires from != ""
    ensures ps != []
  {
    SplitFrom(s, from, 0)
  }

  function Join(ps: seq<string>, sep: string): string
    requires ps != []
  {
    if |ps| == 1 then ps[0] else ps[0] + sep + Join(ps[1..], sep)
  }

  lemma JoinCons(p: string, ps: seq<string>, sep: string)
    requires ps != []
    ensures Join([p] + ps, sep) == p + sep + Join(ps, sep)
  {
    assert ([p] + ps)[1..] == ps;
  }

  /** The only `from` in p + from is the one behind p. */
  ghost predicate EndsAtFirst(p: string, from: string) {
    NotWithin(p + from, from, 0, |p|)
  }

  /** A list of pieces cut at leftmost occurrences: each inner piece runs up to the
      first occurrence, and the last one holds none. */
  ghost predicate LeftmostPieces(ps: seq<string>, from: string) {
    && ps != []
    && (forall j | 0 <= j < |ps| - 1 :: EndsAtFirst(ps[j], from))
    && !Contains(ps[|ps| - 1], from)
  }

  lemma AtWithin(a: string, t: string, b: string, pat: string, k: nat)
    requires k + |pat| <= |t|
    ensures At(t, pat, k) == At(a + t + b, pat, |a| + k)
  {
    AgreeIsPointwise(t, pat, k, 0);
    AgreeIsPointwise(a + t + b, pat, |a| + k, 0);
  }

  lemma PartContains(a: string, b: string, pat: string)
    requires Contains(a, pat)
    ensures Contains(a + b, pat)
  {
    var i :| 0 <= i <= |a| && At(a, pat, i);
    AtWithin("", a, b, pat, i);
    assert "" + a + b == a + b;
    assert At(a + b, pat, i);
  }

  lemma NotWithinShift(a: string, t: string, b: string, pat: string, n: nat)
    requires n <= |t| + 1 && (n + |pat| <= |t| + 1 || b == "")
    ensures NotWithin(t, pat, 0, n) == NotWithin(a + t + b, pat, |a|, |a| + n)
  {
    forall k | 0 <= k < n
      ensures At(t, pat, k) == At(a + t + b, pat, k + |a|)
    {
      if k + |pat| <= |t| { AtWithin(a, t, b, pat, k); }
    }
    assert forall m | |a| <= m < |a| + n :: At(a + t + b, pat, m) == At(t, pat, m - |a|);
  }

  /** Joining with the text that was searched for gives the text back. */
  lemma {:induction false} SplitJoins(s: string, from: string, i: nat)
    requires from != "" && i <= |s|
    ensures Join(SplitFrom(s, from, i), from) == s[i..]
    decreases |s| - i
  {
    var f := FindStr(s, from, i);
    if f.Some? {
      var p := f.value;
      SplitJoins(s, from, p + |from|);
      JoinCons(s[i..p], SplitFrom(s, from, p + |from|), from);
      AtSlice(s, from, p);
      SliceInThree(s, i, p, p + |from|);
    }
  }

  lemma SliceInThree(s: string, i: nat, p: nat, q: nat)
    requires i <= p <= q <= |s|
    ensures s[i..p] + s[p..q] + s[q..] == s[i..]
  {
    assert s[i..p] + s[p..q] == s[i..q];
  }

  lemma {:induction false} SplitLeftmost(s: string, from: string, i: nat)
    requires from != "" && i <= |s|
    ensures LeftmostPieces(SplitFrom(s, from, i), from)
    decreases |s| - i
  {
    var f := FindStr(s, from, i);
    if f.None? {
      assert s[i..] == s[i..] + "" && s == s[..i] + s[i..] + "";
      FindStrFirst(s, from, i, None);
      NotWithinShift(s[..i], s[i..], "", from, |s[i..]| + 1);
    } else {
      var p := f.value;
      var ps := SplitFrom(s, from, p + |from|);
      SplitLeftmost(s, from, p + |from|);
      var piece := s[i..p];
      AtSlice(s, from, p);
      assert s == s[..i] + (piece + from) + s[p + |from|..];
      FindStrFirst(s, from, i, f);
      NotWithinShift(s[..i], piece + from, s[p + |from|..], from, |piece|);
      assert EndsAtFirst(piece, from);
      assert forall j | 0 < j < |ps| + 1 :: ([piece] + ps)[j] == ps[j - 1];
    }
  }

  lemma Assoc<T>(a: seq<T>, b: seq<T>, c: seq<T>)
    ensures a + b + c == a + (b + c)
  {}

  lemma LastPiece(done: string, p: string, from: string)
    requires from != "" && !Contains(p, from)
    ensures SplitFrom(done + p, from, |done|) == [p]
  {
    var s := done + p;
    assert NotWithin(p, from, 0, |p| + 1);
    NotWithinShift(done, p, "", from, |p| + 1);
    assert s == done + p + "";
    FindStrFirst(s, from, |done|, None);
    assert s[|done|..] == p;
  }

  lemma InnerPiece(done: string, p: string, from: string, rest: string)
    requires from != "" && EndsAtFirst(p, from)
    ensures var s := done + p + from + rest;
            SplitFrom(s, from, |done|) == [p] + SplitFrom(s, from, |done + p + from|)
  {
    var s, q := done + p + from + rest, |done| + |p|;
    assert NotWithin(s, from, |done|, q) by {
      assert s == done + (p + from) + rest;
      NotWithinShift(done, p + from, rest, from, |p|);
    }
    assert At(s, from, q) by {
      assert s[q..q + |from|] == from;
      AtSlice(s, from, q);
    }
    FindStrFirst(s, from, |done|, Some(q));
    assert s[|done|..q] == p;
  }

  /** `Split` finds the leftmost pieces, and no other list of pieces is cut that way. */
  lemma {:induction false} SplitUnique(done: string, ps: seq<string>, from: string)
    requires from != "" && LeftmostPieces(ps, from)
    ensures SplitFrom(done + Join(ps, from), from, |done|) == ps
    decreases |ps|
  {
    if |ps| == 1 {
      LastPiece(done, ps[0], from);
    } else {
      var p, rest := ps[0], Join(ps[1..], from);
      assert EndsAtFirst(ps[0], from) && LeftmostPieces(ps[1..], from);
      InnerPiece(done, p, from, rest);
      SplitUnique(done + p + from, ps[1..], from);
      Assoc(done, p + from, rest);
      Assoc(done, p, from);
      assert ps == [p] + ps[1..];
    }
  }

  /** `Split` is the one list of leftmost pieces that joins to the text. */
  lemma SplitCharacterised(s: string, ps: seq<string>, from: string)
    requires from != "" && ps != []
    ensures ps == Split(s, from) <==> LeftmostPieces(ps, from) && Join(ps, from) == s
  {
    SplitJoins(s, from, 0);
    SplitLeftmost(s, from, 0);
    assert s[0..] == s;
    if LeftmostPieces(ps, from) && Join(ps, from) == s {
      SplitUnique("", ps, from);
      assert "" + s == s;
    }
  }

  /** What one turn of the replacing loop adds. */
  lemma ReplaceStep(s: string, from: string, to: string, i: nat)
    requires from != "" && i <= |s|
    ensures var todo := Join(SplitFrom(s, from, i), to);
            match FindStr(s, from, i)
            case None => todo == s[i..]
            case Some(p) => todo == s[i..p] + to + Join(SplitFrom(s, from, p + |from|), to)
  {
    match FindStr(s, from, i)
    case None =>
    case Some(p) =>
      JoinCons(s[i..p], SplitFrom(s, from, p + |from|), to);
  }

  /** replaceAll with a nonempty `from`; with an empty one the original never returns. */
  method ReplaceAll(source: string, from: string, to: string) returns (newString: string)
    requires from != ""
    ensures newString == Join(Split(source, from), to)
  {
    newString := "";
    var lastPos := 0;
    ghost var todo := Join(Split(source, from), to);
    ghost var whole := todo;
    var findPos := FindStr(source, from, lastPos);
    while findPos.Some?
      invariant lastPos <= |source| && findPos == FindStr(source, from, lastPos)
      invariant todo == Join(SplitFrom(source, from, lastPos), to)
      invariant newString + todo == whole
      decreases |source| - lastPos
    {
      ReplaceStep(source, from, to, lastPos);
      var piece := source[lastPos..findPos.value];
      lastPos := findPos.value + |from|;
      todo := Join(SplitFrom(source, from, lastPos), to);
      Assoc(newString, piece + to, todo);
      Assoc(newString, piece, to);
      newString := newString + piece;
      newString := newString + to;
      findPos := FindStr(source, from, lastPos);
    }
    ReplaceStep(source, from, to, lastPos);
    newString := newString + source[lastPos..];
  }

  // ---------------------------------------------------------------- lines

  /** The complete lines of a text; what follows the last newline is not one. */
  function Lines(body: string): (ls: seq<string>)
    decreases |body|
  {
    var p := Find(body, '\n');
    if p == |body| then [] else [body[..p]] + Lines(body[p + 1..])
  }

  function Unlines(ls: seq<string>): string {
    if ls == [] then "" else ls[0] + "\n" + Unlines(ls[1..])
  }

  /** Exactly the lines that are ended by a newline are complete. */
  lemma {:induction false} LinesOfUnlines(ls: seq<string>, tail: string)
    requires (forall l | l in ls :: '\n' !in l) && '\n' !in tail
    ensures Lines(Unlines(ls) + tail) == ls
  {
    if ls == [] {
      FindNone(tail, '\n');
      assert "" + tail == tail;
    } else {
      var more := Unlines(ls[1..]);
      LinesOfUnlines(ls[1..], tail);
      assert Unlines(ls) + tail == ls[0] + ['\n'] + (more + tail);
      FindAfter(ls[0], '\n', more + tail);
    }
  }

  /** Every text consists of its complete lines and a last one without a newline. */
  lemma {:induction false} LinesHaveNoNewline(body: string) returns (tail: string)
    ensures forall l | l in Lines(body) :: '\n' !in l
    ensures '\n' !in tail && body == Unlines(Lines(body)) + tail
    decreases |body|
  {
    var p := Find(body, '\n');
    FindFirst(body, '\n');
    if p < |body| {
      tail := LinesHaveNoNewline(body[p + 1..]);
      assert body == body[..p] + "\n" + body[p + 1..];
      Assoc(body[..p] + "\n", Unlines(Lines(body[p + 1..])), tail);
    } else {
      tail := body;
      assert "" + body == body && body[..p] == body;
    }
  }

  /** What follows the last newline. */
  function LastLine(s: string): string {
    if s == "" || s[|s| - 1] == '\n' then "" else LastLine(s[..|s| - 1]) + [s[|s| - 1]]
  }

  lemma {:induction false} LastLineOf(a: string, tail: string)
    requires '\n' !in tail && (a == "" || a[|a| - 1] == '\n')
    ensures LastLine(a + tail) == tail
    decreases |tail|
  {
    if tail == "" {
      assert a + tail == a;
    } else {
      var n := |tail| - 1;
      LastLineOf(a, tail[..n]);
      assert (a + tail)[..|a + tail| - 1] == a + tail[..n] && tail == tail[..n] + [tail[n]];
    }
  }

  lemma {:induction false} UnlinesEnds(ls: seq<string>)
    ensures Unlines(ls) == "" || Unlines(ls)[|Unlines(ls)| - 1] == '\n'
  {
    if ls != [] { UnlinesEnds(ls[1..]); }
  }

  lemma {:induction false} UnlinesPush(ls: seq<string>, l: string)
    ensures Unlines(ls + [l]) == Unlines(ls) + (l + "\n")
  {
    if ls == [] {
      assert [l][1..] == [] && [] + [l] == [l] && l + "\n" + "" == "" + (l + "\n");
    } else {
      assert (ls + [l])[1..] == ls[1..] + [l];
      UnlinesPush(ls[1..], l);
      Assoc(ls[0] + "\n", Unlines(ls[1..]), l + "\n");
    }
  }

  /** How the lines grow with one more character. */
  lemma LinesPush(s: string, c: char)
    ensures Lines(s + [c]) == if c == '\n' then Lines(s) + [LastLine(s)] else Lines(s)
    ensures LastLine(s + [c]) == if c == '\n' then "" else LastLine(s) + [c]
  {
    var tail := LinesHaveNoNewline(s);
    var front := Unlines(Lines(s));
    UnlinesEnds(Lines(s));
    LastLineOf(front, tail);
    assert (s + [c])[..|s|] == s;
    if c == '\n' {
      UnlinesPush(Lines(s), tail);
      assert s + [c] == front + (tail + "\n") + "";
      LinesOfUnlines(Lines(s) + [tail], "");
    } else {
      Assoc(front, tail, [c]);
      LinesOfUnlines(Lines(s), tail + [c]);
    }
  }

  // ---------------------------------------------------------------- leaving out

  function Without(s: string, c: char): string {
    if s == "" then "" else Without(s[..|s| - 1], c) + (if s[|s| - 1] == c then "" else [s[|s| - 1]])
  }

  lemma {:induction false} WithoutConcat(a: string, b: string, c: char)
    ensures Without(a + b, c) == Without(a, c) + Without(b, c)
    decreases |b|
  {
    if b == "" {
      assert a + b == a;
    } else {
      var n := |b| - 1;
      assert (a + b)[..|a + b| - 1] == a + b[..n];
      WithoutConcat(a, b[..n], c);
      Assoc(Without(a, c), Without(b[..n], c), if b[n] == c then "" else [b[n]]);
    }
  }

  lemma WithoutOne(c: char, d: char)
    ensures Without([d], c) == if d == c then "" else [d]
  {
    assert [d][..0] == "" && "" + [d] == [d];
  }
}
