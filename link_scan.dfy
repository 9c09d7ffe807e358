/**
 * `detect_interfaces()` on Linux: `re.findall(r'\d+: (\w+):', output)` over
 * the text `ip link` printed, written out as a left-to-right scanner.
 */
module LinkScan {
  import opened Wrappers
  import opened Text

  /** Length of the longest run of digits at the start of `t` (`\d+`, greedy). */
  function DigitRun(t: string): (n: nat)
    ensures n <= |t|
    ensures forall i :: 0 <= i < n ==> IsDigit(t[i])
    ensures n < |t| ==> !IsDigit(t[n])
    decreases |t|
  {
    if t != [] && IsDigit(t[0]) then 1 + DigitRun(t[1..]) else 0
  }

  /** Length of the longest run of word characters at the start of `t` (`\w+`, greedy). */
  function WordRun(t: string): (n: nat)
    ensures n <= |t|
    ensures forall i :: 0 <= i < n ==> IsWordChar(t[i])
    ensures n < |t| ==> !IsWordChar(t[n])
    decreases |t|
  {
    if t != [] && IsWordChar(t[0]) then 1 + WordRun(t[1..]) else 0
  }

  /**
   * The pattern tried at the start of `t`: the captured name and the length
   * of the whole match. Backtracking into either run cannot help, because a
   * shorter run is followed by a digit or word character, never by ':'.
   */
  function MatchAt(t: string): (m: Option<(string, nat)>)
    ensures m.Some? ==> 0 < m.value.1 <= |t|
    ensures m.Some? ==> |m.value.0| >= 1 && forall i :: 0 <= i < |m.value.0| ==> IsWordChar(m.value.0[i])
  {
    var d := DigitRun(t);
    if d == 0 || d + 2 > |t| || t[d] != ':' || t[d + 1] != ' ' then None
    else
      var w := WordRun(t[d + 2..]);
      if w == 0 || d + 2 + w >= |t| || t[d + 2 + w] != ':' then None
      else Some((t[d + 2..d + 2 + w], d + 2 + w + 1))
  }

  /**
   * What a match consists of: the leading digit run, ": ", the captured name
   * and ':', and nothing more.
   */
  lemma MatchShape(t: string)
    requires MatchAt(t).Some?
    ensures var (name, n) := MatchAt(t).value; var d := DigitRun(t);
      && d >= 1 && n == d + 2 + |name| + 1
      && t[d..d + 2] == ": " && t[d + 2..n] == name + ":"
  {
    var d := DigitRun(t);
    var w := WordRun(t[d + 2..]);
    assert MatchAt(t).value == (t[d + 2..d + 2 + w], d + 2 + w + 1);
    assert t[d + 2..d + 2 + w + 1] == t[d + 2..d + 2 + w] + [t[d + 2 + w]];
  }

  /** A non-empty run of word characters. */
  predicate IsName(name: string)
  {
    |name| >= 1 && forall i :: 0 <= i < |name| ==> IsWordChar(name[i])
  }

  /** `re.findall`: each match from left to right, scanning resumes after the match. */
  function Scan(t: string): (names: seq<string>)
    ensures forall k :: 0 <= k < |names| ==> IsName(names[k])
    decreases |t|
  {
    if t == [] then []
    else
      match MatchAt(t)
      case Some((name, n)) => [name] + Scan(t[n..])
      case None => Scan(t[1..])
  }

  /** `detect_interfaces()`: a failed command yields no interfaces. */
  function DetectInterfaces(output: Option<string>): (names: seq<string>)
    ensures output.None? ==> names == []
    ensures forall k :: 0 <= k < |names| ==> IsName(names[k])
  {
    if output.None? then [] else Scan(output.value)
  }

  /** One interface's header line of `ip link`: "<index>: <name>:<rest>\n". */
  datatype LinkLine = LinkLine(index: string, name: string, rest: string)

  function Render(l: LinkLine): string
  {
    l.index + ": " + l.name + ":" + l.rest + "\n"
  }

  function RenderAll(ls: seq<LinkLine>): string
    decreases |ls|
  {
    if ls == [] then "" else Render(ls[0]) + RenderAll(ls[1..])
  }

  /** A digit followed by ": " and a word character starts at position `k`: where a match could begin. */
  predicate MarkAt(r: string, k: nat)
    requires k + 3 < |r|
  {
    IsDigit(r[k]) && r[k + 1] == ':' && r[k + 2] == ' ' && IsWordChar(r[k + 3])
  }

  /** No position of the text holds such a mark: nothing there can start a match. */
  predicate NoIndexMark(r: string)
    decreases |r|
  {
    |r| < 4 || (!(IsDigit(r[0]) && r[1] == ':' && r[2] == ' ' && IsWordChar(r[3])) && NoIndexMark(r[1..]))
  }

  lemma {:induction false} NoIndexMarkAt(r: string, k: nat)
    requires NoIndexMark(r) && k + 3 < |r|
    ensures !MarkAt(r, k)
    decreases k
  {
    if k > 0 {
      NoIndexMarkAt(r[1..], k - 1);
    }
  }

  /** Conversely, a text with a mark at no position has none. */
  lemma {:induction false} NoIndexMarkFrom(r: string)
    requires forall k: nat :: k + 3 < |r| ==> !MarkAt(r, k)
    ensures NoIndexMark(r)
    decreases |r|
  {
    if |r| >= 4 {
      assert !MarkAt(r, 0);
      forall k: nat | k + 3 < |r[1..]|
        ensures !MarkAt(r[1..], k)
      {
        assert !MarkAt(r, k + 1);
      }
      NoIndexMarkFrom(r[1..]);
    }
  }

  /** A line the scanner should report: a decimal index, a word-character name, a rest with no digit before ": " and a word character. */
  predicate GoodLine(l: LinkLine)
  {
    && |l.index| >= 1 && (forall i :: 0 <= i < |l.index| ==> IsDigit(l.index[i]))
    && IsName(l.name)
    && NoIndexMark(l.rest)
  }

  function Names(ls: seq<LinkLine>): (names: seq<string>)
    ensures |names| == |ls|
    ensures forall k :: 0 <= k < |ls| ==> names[k] == ls[k].name
  {
    seq(|ls|, k requires 0 <= k < |ls| => ls[k].name)
  }

  lemma DigitRunOf(x: string, y: string)
    requires forall i :: 0 <= i < |x| ==> IsDigit(x[i])
    requires y != [] && !IsDigit(y[0])
    ensures DigitRun(x + y) == |x|
    decreases |x|
  {
    if x != [] {
      assert (x + y)[1..] == x[1..] + y;
      DigitRunOf(x[1..], y);
    }
  }

  lemma WordRunOf(x: string, y: string)
    requires forall i :: 0 <= i < |x| ==> IsWordChar(x[i])
    requires y != [] && !IsWordChar(y[0])
    ensures WordRun(x + y) == |x|
    decreases |x|
  {
    if x != [] {
      assert (x + y)[1..] == x[1..] + y;
      WordRunOf(x[1..], y);
    }
  }

  /** The header of a good line matches at its start and captures the name. */
  lemma MatchesHeader(index: string, name: string, more: string)
    requires |index| >= 1 && forall i :: 0 <= i < |index| ==> IsDigit(index[i])
    requires IsName(name)
    ensures MatchAt(index + (": " + (name + (":" + more)))) == Some((name, |index| + 2 + |name| + 1))
  {
    var w := name + (":" + more);
    var u := ": " + w;
    var t := index + u;
    var d := |index|;
    DigitRunOf(index, u);
    assert t[d] == ':' && t[d + 1] == ' ';
    assert t[d + 2..] == w;
    WordRunOf(name, ":" + more);
    assert t[d + 2 + |name|] == ':';
    assert t[d + 2..d + 2 + |name|] == name;
  }

  /** The pattern fails at the start of `t` when the digits are missing or not followed by ": " and a word character. */
  lemma NoMatchWhen(t: string, d: nat)
    requires d == DigitRun(t)
    requires d == 0 || d + 2 >= |t| || t[d] != ':' || t[d + 1] != ' ' || !IsWordChar(t[d + 2])
    ensures MatchAt(t) == None
  {
    if d + 2 < |t| {
      assert t[d + 2..][0] == t[d + 2];
    }
  }

  /** No match starts anywhere in `r + "\n"` when no digit in `r` is followed by ": " and a word character. */
  lemma NoMatchInRest(r: string, b: string, j: nat)
    requires NoIndexMark(r) && j <= |r|
    ensures MatchAt((r + "\n" + b)[j..]) == None
  {
    var s := r + "\n" + b;
    var t := s[j..];
    var d := DigitRun(t);
    assert t[|r| - j] == '\n';
    if d > 0 && j + d + 2 < |r| {
      NoIndexMarkAt(r, j + d - 1);
      assert t[d - 1] == r[j + d - 1] && t[d] == r[j + d] && t[d + 1] == r[j + d + 1] && t[d + 2] == r[j + d + 2];
    } else if d > 0 && j + d + 2 == |r| {
      assert t[d + 2] == '\n';
    } else if d > 0 && j + d + 1 == |r| {
      assert t[d + 1] == '\n';
    } else if d > 0 {
      assert j + d == |r| && t[d] == '\n';
    }
    NoMatchWhen(t, d);
  }

  /** Scanning past the rest of a line and its newline finds nothing. */
  lemma {:induction false} ScanSkipsRest(r: string, b: string, j: nat)
    requires NoIndexMark(r) && j <= |r| + 1
    ensures Scan((r + "\n" + b)[j..]) == Scan(b)
    decreases |r| + 1 - j
  {
    var s := r + "\n" + b;
    if j == |r| + 1 {
      assert s[j..] == b;
    } else {
      NoMatchInRest(r, b, j);
      assert s[j..][1..] == s[j + 1..];
      ScanSkipsRest(r, b, j + 1);
    }
  }

  lemma ScanAtMatch(t: string, name: string, n: nat)
    requires t != [] && MatchAt(t) == Some((name, n))
    ensures Scan(t) == [name] + Scan(t[n..])
  {
  }

  lemma NamesCons(ls: seq<LinkLine>)
    requires ls != []
    ensures Names(ls) == [ls[0].name] + Names(ls[1..])
  {
    assert forall k :: 0 <= k < |ls| ==> Names(ls)[k] == ([ls[0].name] + Names(ls[1..]))[k];
  }

  /** After a line's header, its rest and newline contribute nothing. */
  lemma ScanAfterHeader(head: string, r: string, tail: string)
    requires NoIndexMark(r)
    ensures Scan((head + (r + "\n" + tail))[|head|..]) == Scan(tail)
  {
    assert (head + (r + "\n" + tail))[|head|..] == (r + "\n" + tail)[0..];
    ScanSkipsRest(r, tail, 0);
  }

  /** Two readings of a rendered line followed by more text: as header and remainder, and as the pattern's parts. */
  lemma RenderSplit(l: LinkLine, tail: string)
    ensures var more := l.rest + "\n" + tail;
      && Render(l) + tail == (l.index + ": " + l.name + ":") + more
      && Render(l) + tail == l.index + (": " + (l.name + (":" + more)))
  {
  }

  /** A good header line contributes its name and nothing else. */
  lemma ScanLine(l: LinkLine, tail: string)
    requires GoodLine(l)
    ensures Scan(Render(l) + tail) == [l.name] + Scan(tail)
  {
    var more := l.rest + "\n" + tail;
    var head := l.index + ": " + l.name + ":";
    var t := head + more;
    RenderSplit(l, tail);
    assert Scan(t) == [l.name] + Scan(t[|head|..]) by {
      MatchesHeader(l.index, l.name, more);
      ScanAtMatch(t, l.name, |head|);
    }
    ScanAfterHeader(head, l.rest, tail);
  }

  /** The scanner reports exactly the names of good header lines, in order. */
  lemma {:induction false} ScanRendered(ls: seq<LinkLine>)
    requires forall k :: 0 <= k < |ls| ==> GoodLine(ls[k])
    ensures Scan(RenderAll(ls)) == Names(ls)
    decreases |ls|
  {
    if ls != [] {
      assert RenderAll(ls) == Render(ls[0]) + RenderAll(ls[1..]);
      ScanLine(ls[0], RenderAll(ls[1..]));
      ScanRendered(ls[1..]);
      NamesCons(ls);
    }
  }

  /** No match starts inside the index of a line whose name stops at a character other than ':'. */
  lemma NoMatchInIndex(index: string, a: string, more: string, j: nat)
    requires j < |index| && forall i :: 0 <= i < |index| ==> IsDigit(index[i])
    requires forall i :: 0 <= i < |a| ==> IsWordChar(a[i])
    requires more != [] && !IsWordChar(more[0]) && more[0] != ':'
    ensures MatchAt((index + (": " + (a + more)))[j..]) == None
  {
    var u := ": " + (a + more);
    var t := (index + u)[j..];
    assert t == index[j..] + u;
    DigitRunOf(index[j..], u);
    var d := |index| - j;
    assert t[d] == ':' && t[d + 1] == ' ';
    assert t[d + 2..] == a + more;
    WordRunOf(a, more);
    assert t[d + 2 + |a|] == more[0];
  }

  lemma {:induction false} ScanSkipsIndex(index: string, a: string, more: string, j: nat)
    requires j <= |index| && forall i :: 0 <= i < |index| ==> IsDigit(index[i])
    requires forall i :: 0 <= i < |a| ==> IsWordChar(a[i])
    requires more != [] && !IsWordChar(more[0]) && more[0] != ':'
    ensures Scan((index + (": " + (a + more)))[j..]) == Scan(": " + (a + more))
    decreases |index| - j
  {
    var t := index + (": " + (a + more));
    if j == |index| {
      assert t[j..] == ": " + (a + more);
    } else {
      NoMatchInIndex(index, a, more, j);
      assert t[j..][1..] == t[j + 1..];
      ScanSkipsIndex(index, a, more, j + 1);
    }
  }

  /** The two ways `SkipsNonWordName` reads a rendered line followed by more text. */
  lemma RenderedAround(l: LinkLine, k: nat, tail: string)
    requires k <= |l.name|
    ensures var more := l.name[k..] + (":" + l.rest + "\n" + tail);
      && Render(l) + tail == l.index + (": " + (l.name[..k] + more))
      && ": " + (l.name[..k] + more) == ((": " + l.name + ":" + l.rest) + "\n" + tail)[0..]
  {
    var x := ":" + l.rest + "\n" + tail;
    assert l.name[..k] + (l.name[k..] + x) == l.name + x by {
      assert l.name == l.name[..k] + l.name[k..];
    }
  }

  /**
   * A header line whose name has a character outside `\w` other than ':'
   * (a bridge "br-lan", a peer suffix "veth0@if2") at position `k`, after
   * word characters only, is not reported, as long as the rest of the line
   * holds no digit followed by ": " and a word character.
   */
  lemma SkipsNonWordName(l: LinkLine, k: nat, tail: string)
    requires |l.index| >= 1 && forall i :: 0 <= i < |l.index| ==> IsDigit(l.index[i])
    requires k < |l.name| && !IsWordChar(l.name[k]) && l.name[k] != ':'
    requires forall i :: 0 <= i < k ==> IsWordChar(l.name[i])
    requires NoIndexMark(": " + l.name + ":" + l.rest)
    ensures Scan(Render(l) + tail) == Scan(tail)
  {
    var more := l.name[k..] + (":" + l.rest + "\n" + tail);
    RenderedAround(l, k, tail);
    ScanSkipsIndex(l.index, l.name[..k], more, 0);
    ScanSkipsRest(": " + l.name + ":" + l.rest, tail, 0);
  }

  /** After the index, a veth peer header has a digit before ": " only where '<' follows. */
  lemma VethRestUnmarked()
    ensures NoIndexMark(": veth0@if2: <UP>")
  {
    var r := ": veth0@if2: <UP>";
    forall k: nat | k + 3 < |r|
      ensures !MarkAt(r, k)
    {
      if IsDigit(r[k]) {
        assert k == 6 || k == 10;
      }
    }
    NoIndexMarkFrom(r);
  }

  /** A veth peer header "5: veth0@if2: <UP>", whose name ends in a digit followed by ": <", is skipped. */
  lemma SkipsVethPeer(tail: string)
    ensures Scan(Render(LinkLine("5", "veth0@if2", " <UP>")) + tail) == Scan(tail)
  {
    var l := LinkLine("5", "veth0@if2", " <UP>");
    assert NoIndexMark(": " + l.name + ":" + l.rest) by {
      assert ": " + l.name + ":" + l.rest == ": veth0@if2: <UP>";
      VethRestUnmarked();
    }
    SkipsNonWordName(l, 5, tail);
  }
}
