/** `Preprocessor` (rag-engine/rag_engine/preprocess.py): messages joined into one text,
    rewritten by the remote chat-completion service when an API key is configured, and by
    the local heuristic otherwise or when that call fails. The remote call is passed in as a
    function from the joined text to the reply's `choices[0].message.content` or an error. */
module Preprocessing {
  import opened Outcomes
  import opened Seqs
  import opened Text

  /** The characters `ln.strip(" -•\t")` removes. */
  predicate IsBulletOrSpace(c: char) {
    c == ' ' || c == '-' || c == '•' || c == '\t'
  }

  /** `s.replace(a, b)` for single characters. */
  function ReplaceChar(s: string, a: char, b: char): (r: string)
    ensures |r| == |s|
    ensures forall i :: 0 <= i < |s| && s[i] == a ==> r[i] == b
    ensures forall i :: 0 <= i < |s| && s[i] != a ==> r[i] == s[i]
    ensures a != b ==> a !in r
    ensures forall c :: c in r ==> c in s || c == b
  {
    seq(|s|, i requires 0 <= i < |s| => if s[i] == a then b else s[i])
  }

  /** One `s.replace("  ", " ")`: each pair of spaces, found left to right without
      overlap, becomes one space. */
  function HalveDoubleSpaces(s: string): (r: string)
    ensures |r| <= |s|
    ensures s != [] ==> r != [] && r[0] == s[0]
    ensures HasDoubleSpace(s) ==> |r| < |s|
    ensures forall c :: c in r ==> c in s
  {
    if |s| >= 2 && s[0] == ' ' && s[1] == ' ' then [' '] + HalveDoubleSpaces(s[2..])
    else if s == [] then []
    else
      assert HasDoubleSpace(s) ==> HasDoubleSpace(s[1..]) by {
        if HasDoubleSpace(s) {
          var i :| 0 <= i < |s| - 1 && s[i] == ' ' && s[i + 1] == ' ';
          assert i >= 1 && s[1..][i - 1] == ' ' && s[1..][i] == ' ';
        }
      }
      [s[0]] + HalveDoubleSpaces(s[1..])
  }

  /** `n` spaces. */
  function Spaces(n: nat): (r: string)
    ensures |r| == n && forall i :: 0 <= i < n ==> r[i] == ' '
  {
    seq(n, _ => ' ')
  }

  /** One pass turns a run of `n` spaces into a run of half as many, rounded up. */
  lemma {:induction false} HalveRun(n: nat, t: string)
    requires t == [] || t[0] != ' '
    ensures HalveDoubleSpaces(Spaces(n) + t) == Spaces((n + 1) / 2) + HalveDoubleSpaces(t)
    decreases n
  {
    var s := Spaces(n) + t;
    if n >= 2 {
      var rest, m := HalveDoubleSpaces(t), (n - 1) / 2;
      assert (n + 1) / 2 == m + 1;
      SpacesCons(n - 1);
      SpacesCons(n - 2);
      assert s == [' ', ' '] + (Spaces(n - 2) + t);
      calc {
        HalveDoubleSpaces(s);
        { HalvePair(Spaces(n - 2) + t); }
        [' '] + HalveDoubleSpaces(Spaces(n - 2) + t);
        { HalveRun(n - 2, t); }
        [' '] + (Spaces(m) + rest);
        ([' '] + Spaces(m)) + rest;
        { SpacesCons(m); }
        Spaces(m + 1) + rest;
      }
    } else if n == 1 {
      SpacesCons(0);
      assert s == [' '] + t;
      HalveOther(' ', t);
    } else {
      assert s == t;
    }
  }

  /** `n + 1` spaces are one space followed by `n`. */
  lemma SpacesCons(n: nat)
    ensures Spaces(n + 1) == [' '] + Spaces(n)
  {
  }

  /** A leading pair of spaces becomes one space. */
  lemma HalvePair(t: string)
    ensures HalveDoubleSpaces([' ', ' '] + t) == [' '] + HalveDoubleSpaces(t)
  {
    assert ([' ', ' '] + t)[2..] == t;
  }

  /** A leading character that does not start a pair of spaces is kept. */
  lemma HalveOther(c: char, t: string)
    requires c != ' ' || t == [] || t[0] != ' '
    ensures HalveDoubleSpaces([c] + t) == [c] + HalveDoubleSpaces(t)
  {
    assert ([c] + t)[1..] == t;
  }

  /** The reference for the collapse loop: a space is dropped when a space follows it, so
      every run of spaces becomes a single space and everything else stays in order. */
  function SquashSpaces(s: string): (r: string)
    ensures s != [] ==> r != [] && r[0] == s[0]
    ensures ' ' in r <==> ' ' in s
  {
    if |s| >= 2 && s[0] == ' ' && s[1] == ' ' then SquashSpaces(s[1..])
    else if s == [] then []
    else [s[0]] + SquashSpaces(s[1..])
  }

  /** A run of spaces, followed by something other than a space, becomes one space. */
  lemma {:induction false} SquashRun(n: nat, t: string)
    requires n >= 1 && (t == [] || t[0] != ' ')
    ensures SquashSpaces(Spaces(n) + t) == " " + SquashSpaces(t)
    decreases n
  {
    var s := Spaces(n) + t;
    assert s[1..] == Spaces(n - 1) + t;
    if n >= 2 {
      SquashRun(n - 1, t);
    }
  }

  /** Text without two spaces in a row has nothing to squash. */
  lemma {:induction false} SquashNoDouble(s: string)
    requires !HasDoubleSpace(s)
    ensures SquashSpaces(s) == s
  {
    if s != [] {
      SquashNoDouble(s[1..]);
    }
  }

  /** One replace pass does not change what squashing gives. */
  lemma {:induction false} SquashHalve(s: string)
    ensures SquashSpaces(HalveDoubleSpaces(s)) == SquashSpaces(s)
    decreases |s|
  {
    if |s| >= 2 && s[0] == ' ' && s[1] == ' ' {
      var t := s[2..];
      SquashHalve(t);
      var h := HalveDoubleSpaces(t);
      assert HalveDoubleSpaces(s) == [' '] + h;
      assert s[1..] == [' '] + t;
      assert ([' '] + h)[1..] == h;
      assert ([' '] + t)[1..] == t;
    } else if s != [] {
      SquashHalve(s[1..]);
      var h := HalveDoubleSpaces(s[1..]);
      assert HalveDoubleSpaces(s) == [s[0]] + h;
      assert ([s[0]] + h)[1..] == h;
    }
  }

  /** The text once `while "  " in text` has finished: every run of spaces squashed to one. */
  function Collapse(s: string): (r: string)
    ensures r == SquashSpaces(s)
    ensures !HasDoubleSpace(r)
    ensures !HasDoubleSpace(s) ==> r == s
    ensures forall c :: c in r ==> c in s
    decreases |s|
  {
    if HasDoubleSpace(s) then
      SquashHalve(s);
      Collapse(HalveDoubleSpaces(s))
    else
      SquashNoDouble(s);
      s
  }

  /** The text without its spaces: what collapsing spaces must leave alone. */
  function NonSpaces(s: string): string {
    Filter(s, (c: char) => c != ' ')
  }

  /** One replace pass keeps every character other than a space, in order. */
  lemma {:induction false} HalveKeepsNonSpaces(s: string)
    ensures NonSpaces(HalveDoubleSpaces(s)) == NonSpaces(s)
    decreases |s|
  {
    var p := (c: char) => c != ' ';
    if |s| >= 2 && s[0] == ' ' && s[1] == ' ' {
      HalveKeepsNonSpaces(s[2..]);
      FilterAppend([' '], HalveDoubleSpaces(s[2..]), p);
      assert s == [' ', ' '] + s[2..];
      FilterAppend([' ', ' '], s[2..], p);
      FilterDropsAll([' '], p);
      FilterDropsAll([' ', ' '], p);
    } else if s != [] {
      HalveKeepsNonSpaces(s[1..]);
      FilterAppend([s[0]], HalveDoubleSpaces(s[1..]), p);
      assert s == [s[0]] + s[1..];
      FilterAppend([s[0]], s[1..], p);
    }
  }

  /** The collapse loop keeps every character other than a space, in order. */
  lemma {:induction false} CollapseKeepsNonSpaces(s: string)
    ensures NonSpaces(Collapse(s)) == NonSpaces(s)
    decreases |s|
  {
    if HasDoubleSpace(s) {
      HalveKeepsNonSpaces(s);
      CollapseKeepsNonSpaces(HalveDoubleSpaces(s));
    }
  }

  /** The cleaned lines of the heuristic, before they are joined: every one is good. */
  function HeuristicLines(text: string): (lines: seq<string>)
    ensures forall i :: 0 <= i < |lines| ==> GoodLine(lines[i])
  {
    var t := Strip(ReplaceChar(text, '\r', '\n'), IsPySpace);
    CollapsedClean(text);
    CleanedLinesGood(Collapse(t));
    CleanLines(Split(Collapse(t), '\n'), IsBulletOrSpace)
  }

  /** What `_fallback_heuristic` returns: no "\r", never two spaces in a row, and empty
      only when no line survives the cleaning. */
  function Heuristic(text: string): (h: string)
    ensures '\r' !in h
    ensures !HasDoubleSpace(h)
    ensures h == "" <==> HeuristicLines(text) == []
  {
    JoinLinesInherits(HeuristicLines(text));
    Join(HeuristicLines(text), "\n")
  }

  /** `_fallback_heuristic`: the collapse loop, then the two comprehensions and the join. */
  method FallbackHeuristic(text: string) returns (r: string)
    ensures r == Heuristic(text)
  {
    var t := Strip(ReplaceChar(text, '\r', '\n'), IsPySpace);
    ghost var start := t;
    while HasDoubleSpace(t)
      invariant Collapse(t) == Collapse(start)
      decreases |t|
    {
      t := HalveDoubleSpaces(t);
    }
    var lines := CleanLines(Split(t, '\n'), IsBulletOrSpace);
    r := Join(lines, "\n");
  }

  /** A line of the heuristic's output: non-empty, without "\r" or two spaces in a row, and
      neither starting nor ending with a space, a dash, a bullet or a tab. */
  predicate GoodLine(x: string) {
    x != [] && '\n' !in x && '\r' !in x && !HasDoubleSpace(x)
    && !IsBulletOrSpace(x[0]) && !IsBulletOrSpace(x[|x| - 1])
  }

  /** The text the heuristic splits into lines has no "\r" and no two spaces in a row. */
  lemma CollapsedClean(text: string)
    ensures '\r' !in Collapse(Strip(ReplaceChar(text, '\r', '\n'), IsPySpace))
    ensures !HasDoubleSpace(Collapse(Strip(ReplaceChar(text, '\r', '\n'), IsPySpace)))
  {
    var replaced := ReplaceChar(text, '\r', '\n');
    var t := Strip(replaced, IsPySpace);
    var a := StripIsInfix(replaced, IsPySpace);
    InfixInherits(replaced, a, a + |t|);
  }

  /** Splitting a text without "\r" or two spaces in a row on "\n" and cleaning the pieces
      gives good lines only. */
  lemma CleanedLinesGood(c: string)
    requires '\r' !in c && !HasDoubleSpace(c)
    ensures forall i :: 0 <= i < |CleanLines(Split(c, '\n'), IsBulletOrSpace)| ==>
      GoodLine(CleanLines(Split(c, '\n'), IsBulletOrSpace)[i])
  {
    var pieces := Split(c, '\n');
    SplitInherits(c, '\n');
    assert forall i :: 0 <= i < |pieces| ==> '\r' !in pieces[i];
    assert forall i :: 0 <= i < |pieces| ==> !HasDoubleSpace(pieces[i]);
    CleanLinesInherits(pieces, IsBulletOrSpace, '\n');
    CleanLinesInherits(pieces, IsBulletOrSpace, '\r');
    CleanLinesNoDoubleSpace(pieces, IsBulletOrSpace);
    var lines := CleanLines(pieces, IsBulletOrSpace);
    forall i | 0 <= i < |lines| ensures GoodLine(lines[i]) {
      assert lines[i] != [] && !IsBulletOrSpace(lines[i][0]) && !IsBulletOrSpace(lines[i][|lines[i]| - 1]);
      assert '\n' !in lines[i] && '\r' !in lines[i] && !HasDoubleSpace(lines[i]);
    }
  }

  /** Good lines joined by "\n" give a text without "\r" or two spaces in a row, empty only
      when there is no line. */
  lemma {:induction false} JoinLinesInherits(xs: seq<string>)
    requires forall i :: 0 <= i < |xs| ==> GoodLine(xs[i])
    ensures '\r' !in Join(xs, "\n")
    ensures !HasDoubleSpace(Join(xs, "\n"))
    ensures xs != [] ==> Join(xs, "\n") != []
  {
    if |xs| > 1 {
      JoinLinesInherits(xs[1..]);
      var x, rest := xs[0], Join(xs[1..], "\n");
      var s := Join(xs, "\n");
      assert s == x + "\n" + rest;
      forall i | 0 <= i < |s| - 1 ensures !(s[i] == ' ' && s[i + 1] == ' ') {
        if i < |x| - 1 {
          assert s[i] == x[i] && s[i + 1] == x[i + 1];
        } else if i == |x| - 1 {
          assert s[i + 1] == '\n';
        } else if i == |x| {
          assert s[i] == '\n';
        } else {
          assert s[i] == rest[i - |x| - 1] && s[i + 1] == rest[i - |x|];
        }
      }
    }
  }

  /** The output's lines are exactly the cleaned lines, in order: none is empty, none starts
      or ends with a space, dash, bullet or tab. Only an output with no line at all is empty. */
  lemma HeuristicLinesBack(text: string)
    ensures Heuristic(text) != "" ==> Split(Heuristic(text), '\n') == HeuristicLines(text)
    ensures Heuristic(text) != "" ==> forall i :: 0 <= i < |Split(Heuristic(text), '\n')| ==>
      GoodLine(Split(Heuristic(text), '\n')[i])
  {
    JoinLinesInherits(HeuristicLines(text));
    if HeuristicLines(text) != [] {
      SplitJoin(HeuristicLines(text), '\n');
    }
  }

  /** Text the heuristic would produce is left as it is: good lines joined by "\n", with no
      whitespace at either end of the whole, come out unchanged. */
  lemma HeuristicFixpoint(lines: seq<string>)
    requires forall i :: 0 <= i < |lines| ==> GoodLine(lines[i])
    requires var t := Join(lines, "\n"); t == [] || (!IsPySpace(t[0]) && !IsPySpace(t[|t| - 1]))
    ensures Heuristic(Join(lines, "\n")) == Join(lines, "\n")
  {
    var t := Join(lines, "\n");
    JoinLinesInherits(lines);
    assert ReplaceChar(t, '\r', '\n') == t;
    StripFixed(t, IsPySpace);
    if lines == [] {
      assert Split(t, '\n') == [""];
      CleanLinesOne("", IsBulletOrSpace);
    } else {
      SplitJoin(lines, '\n');
      CleanLinesFixed(lines, IsBulletOrSpace);
    }
  }

  /** The messages stripped, blank ones dropped, joined by "\n" in order: empty exactly when
      every message is blank, and otherwise starting with the first non-blank one, stripped. */
  function JoinMessages(messages: seq<string>): (joined: string)
    ensures joined == "" <==> CleanLines(messages, IsPySpace) == []
    ensures CleanLines(messages, IsPySpace) != [] ==> CleanLines(messages, IsPySpace)[0] <= joined
  {
    JoinEmpty(CleanLines(messages, IsPySpace), "\n");
    Join(CleanLines(messages, IsPySpace), "\n")
  }

  /** Messages without a line break come back out of the joined text one per line. */
  lemma JoinMessagesLines(messages: seq<string>)
    requires forall i :: 0 <= i < |messages| ==> '\n' !in messages[i]
    requires CleanLines(messages, IsPySpace) != []
    ensures Split(JoinMessages(messages), '\n') == CleanLines(messages, IsPySpace)
  {
    var lines := CleanLines(messages, IsPySpace);
    var stripped := Map(messages, (x: string) => Strip(x, IsPySpace));
    forall j | 0 <= j < |stripped| ensures '\n' !in stripped[j] {
      var k := StripIsInfix(messages[j], IsPySpace);
      InfixInherits(messages[j], k, k + |stripped[j]|);
    }
    forall i | 0 <= i < |lines| ensures '\n' !in lines[i] {
      assert lines[i] in stripped;
    }
    SplitJoin(lines, '\n');
  }

  /** `preprocess`: the heuristic without an API key; with one, the stripped remote reply,
      or the heuristic when the remote call raises. */
  function Preprocess(messages: seq<string>, apiKey: Option<string>,
                      remote: string -> Result<string, string>): (text: string)
    ensures apiKey.None? || apiKey.value == "" ==> text == Heuristic(JoinMessages(messages))
    ensures apiKey.Some? && apiKey.value != "" && remote(JoinMessages(messages)).Ok? ==>
      text == Strip(remote(JoinMessages(messages)).value, IsPySpace)
    ensures apiKey.Some? && apiKey.value != "" && remote(JoinMessages(messages)).Err? ==>
      text == Heuristic(JoinMessages(messages))
  {
    var joined := JoinMessages(messages);
    if apiKey.None? || apiKey.value == "" then Heuristic(joined)
    else
      match remote(joined)
      case Ok(content) => Strip(content, IsPySpace)
      case Err(_) => Heuristic(joined)
  }

  /** Without an API key the remote service plays no part: any two remotes give the same
      text, the heuristic of the joined messages. */
  lemma NoKeyNeverCallsRemote(messages: seq<string>, apiKey: Option<string>,
                              remote1: string -> Result<string, string>, remote2: string -> Result<string, string>)
    requires apiKey.None? || apiKey.value == ""
    ensures Preprocess(messages, apiKey, remote1) == Preprocess(messages, apiKey, remote2)
    ensures Preprocess(messages, apiKey, remote1) == Heuristic(JoinMessages(messages))
  {
  }

  /** A failing remote call gives the same text as having no key at all. */
  lemma RemoteFailureFallsBack(messages: seq<string>, key: string, remote: string -> Result<string, string>)
    requires key != "" && remote(JoinMessages(messages)).Err?
    ensures Preprocess(messages, Some(key), remote) == Preprocess(messages, None, remote)
  {
  }
}
