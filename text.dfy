/** String primitives of JavaScript and Python as the core uses them:
    `trim`/`strip`, `split`, `splitlines`, `join`, `toLowerCase`, `endsWith`. */
module Text {
  import opened Seqs

  /** ECMAScript `WhiteSpace` and `LineTerminator`: what `String.prototype.trim` removes. */
  predicate IsJsSpace(c: char) {
    c == '\t' || c == '\n' || c == '\U{000B}' || c == '\U{000C}' || c == '\r' || c == ' '
    || c == '\U{00A0}' || c == '\U{1680}' || ('\U{2000}' <= c <= '\U{200A}')
    || c == '\U{2028}' || c == '\U{2029}' || c == '\U{202F}' || c == '\U{205F}'
    || c == '\U{3000}' || c == '\U{FEFF}'
  }

  /** Python's `str.isspace`: what `str.strip()` with no argument removes. */
  predicate IsPySpace(c: char) {
    c == '\t' || c == '\n' || c == '\U{000B}' || c == '\U{000C}' || c == '\r'
    || ('\U{001C}' <= c <= '\U{001F}') || c == ' ' || c == '\U{0085}' || c == '\U{00A0}'
    || c == '\U{1680}' || ('\U{2000}' <= c <= '\U{200A}') || c == '\U{2028}'
    || c == '\U{2029}' || c == '\U{202F}' || c == '\U{205F}' || c == '\U{3000}'
  }

  /** The line boundaries of Python's `str.splitlines` ("\r\n" counts as one boundary). */
  predicate IsPyLineBreak(c: char) {
    c == '\n' || c == '\r' || c == '\U{000B}' || c == '\U{000C}' || c == '\U{001C}'
    || c == '\U{001D}' || c == '\U{001E}' || c == '\U{0085}' || c == '\U{2028}' || c == '\U{2029}'
  }

  /** `s` with every leading character that `drop` accepts removed. */
  function StripLeft(s: string, drop: char -> bool): (r: string)
    ensures |r| <= |s| && r == s[|s| - |r|..]
    ensures r == [] || !drop(r[0])
  {
    if s != [] && drop(s[0]) then StripLeft(s[1..], drop) else s
  }

  /** `s` with every trailing character that `drop` accepts removed. */
  function StripRight(s: string, drop: char -> bool): (r: string)
    ensures |r| <= |s| && r == s[..|r|]
    ensures r == [] || !drop(r[|r| - 1])
  {
    if s != [] && drop(s[|s| - 1]) then StripRight(s[..|s| - 1], drop) else s
  }

  /** `trim()` / `strip(chars)`: both ends stripped of the characters `drop` accepts. */
  function Strip(s: string, drop: char -> bool): (r: string)
    ensures |r| <= |s|
    ensures r == [] || (!drop(r[0]) && !drop(r[|r| - 1]))
  {
    StripRight(StripLeft(s, drop), drop)
  }

  /** The stripped string is a contiguous piece of the original, starting at `a`. */
  lemma StripIsInfix(s: string, drop: char -> bool) returns (a: nat)
    ensures a + |Strip(s, drop)| <= |s| && Strip(s, drop) == s[a..a + |Strip(s, drop)|]
  {
    var l := StripLeft(s, drop);
    a := |s| - |l|;
    var r := StripRight(l, drop);
    assert l == s[a..] && r == l[..|r|];
    assert s[a..][..|r|] == s[a..a + |r|];
  }

  /** A string with nothing to strip at either end is left as it is. */
  lemma StripFixed(s: string, drop: char -> bool)
    requires s == [] || (!drop(s[0]) && !drop(s[|s| - 1]))
    ensures Strip(s, drop) == s
  {
  }

  /** Stripping the front of `s + t` reaches into `t` only when all of `s` is stripped. */
  lemma {:induction false} StripLeftAppend(s: string, t: string, drop: char -> bool)
    ensures StripLeft(s, drop) != [] ==> StripLeft(s + t, drop) == StripLeft(s, drop) + t
    ensures StripLeft(s, drop) == [] ==> StripLeft(s + t, drop) == StripLeft(t, drop)
  {
    if s == [] {
      assert s + t == t;
    } else {
      assert (s + t)[0] == s[0] && (s + t)[1..] == s[1..] + t;
      if drop(s[0]) {
        StripLeftAppend(s[1..], t, drop);
      }
    }
  }

  /** A stripped character appended at the end makes no difference to the stripped text. */
  lemma StripAppendDropped(s: string, c: char, drop: char -> bool)
    requires drop(c)
    ensures Strip(s + [c], drop) == Strip(s, drop)
  {
    StripLeftAppend(s, [c], drop);
    var l := StripLeft(s, drop);
    if l == [] {
      assert StripLeft([c], drop) == StripLeft([c][1..], drop);
    } else {
      assert (l + [c])[..|l|] == l;
    }
  }

  /** `s.split(c)` in both JavaScript and Python: the pieces between occurrences of `c`;
      `""` splits into `[""]`. */
  function Split(s: string, c: char): (r: seq<string>)
    ensures |r| >= 1
    ensures forall i :: 0 <= i < |r| ==> c !in r[i]
    ensures r[0] <= s
  {
    if s == [] then [""]
    else
      var rest := Split(s[1..], c);
      if s[0] == c then [""] + rest
      else [[s[0]] + rest[0]] + rest[1..]
  }

  /** `sep.join(xs)` / `xs.join(sep)`. */
  function Join(xs: seq<string>, sep: string): string {
    if xs == [] then ""
    else if |xs| == 1 then xs[0]
    else xs[0] + sep + Join(xs[1..], sep)
  }

  /** With a non-empty separator, only no pieces or one empty piece join to the empty
      string, and the first piece always starts the result. */
  lemma JoinEmpty(xs: seq<string>, sep: string)
    requires sep != ""
    ensures Join(xs, sep) == "" <==> xs == [] || xs == [""]
    ensures xs != [] ==> xs[0] <= Join(xs, sep)
  {
    if |xs| > 1 {
      assert Join(xs, sep) == xs[0] + sep + Join(xs[1..], sep);
      assert |Join(xs, sep)| >= |sep| > 0;
    }
  }

  /** Joining the pieces of a split with the separator gives back the original string. */
  lemma {:induction false} JoinSplit(s: string, c: char)
    ensures Join(Split(s, c), [c]) == s
  {
    if s != [] {
      var rest := Split(s[1..], c);
      JoinSplit(s[1..], c);
      if s[0] != c && |rest| > 1 {
        assert Join(rest, [c]) == rest[0] + [c] + Join(rest[1..], [c]);
      }
    }
  }

  /** A string without the separator splits into itself alone. */
  lemma {:induction false} SplitWithoutSeparator(s: string, c: char)
    requires c !in s
    ensures Split(s, c) == [s]
  {
    if s != [] {
      assert s[0] != c;
      SplitWithoutSeparator(s[1..], c);
      assert [s[0]] + s[1..] == s;
    }
  }

  /** Splitting stops at the first separator. */
  lemma {:induction false} SplitAtFirst(w: string, t: string, c: char)
    requires c !in w
    ensures Split(w + [c] + t, c) == [w] + Split(t, c)
  {
    if w == [] {
      assert w + [c] + t == [c] + t;
      assert ([c] + t)[1..] == t;
    } else {
      assert (w + [c] + t)[1..] == w[1..] + [c] + t;
      SplitAtFirst(w[1..], t, c);
      assert [w[0]] + w[1..] == w;
    }
  }

  /** Splitting a join gives back the joined pieces when none contains the separator. */
  lemma {:induction false} SplitJoin(xs: seq<string>, c: char)
    requires |xs| >= 1
    requires forall i :: 0 <= i < |xs| ==> c !in xs[i]
    ensures Split(Join(xs, [c]), c) == xs
  {
    if |xs| == 1 {
      SplitWithoutSeparator(xs[0], c);
    } else {
      SplitJoin(xs[1..], c);
      SplitAtFirst(xs[0], Join(xs[1..], [c]), c);
      assert [xs[0]] + xs[1..] == xs;
    }
  }

  /** `x` without one trailing "\r". */
  function DropCR(x: string): (r: string)
    ensures x != [] && x[|x| - 1] == '\r' ==> x == r + "\r"
    ensures !(x != [] && x[|x| - 1] == '\r') ==> r == x
  {
    if x != [] && x[|x| - 1] == '\r' then x[..|x| - 1] else x
  }

  /** Every piece but the last loses the "\r" that stood before its "\n". */
  function DropCRBeforeBreaks(pieces: seq<string>): (r: seq<string>)
    ensures |r| == |pieces|
  {
    if |pieces| <= 1 then pieces else [DropCR(pieces[0])] + DropCRBeforeBreaks(pieces[1..])
  }

  /** JavaScript `s.split(/\r?\n/)`: a split on "\n" where a "\r" right before a "\n" goes
      with the separator; the last piece, which no "\n" follows, keeps its "\r". */
  function SplitCRLF(s: string): (r: seq<string>)
    ensures |r| == |Split(s, '\n')|
  {
    DropCRBeforeBreaks(Split(s, '\n'))
  }

  /** A text without "\n" is a single piece, kept as it is. */
  lemma SplitCRLFLast(s: string)
    requires '\n' !in s
    ensures SplitCRLF(s) == [s]
  {
    SplitWithoutSeparator(s, '\n');
  }

  /** The first piece ends at the first "\n", without the "\r" just before it, if any;
      the rest of the text is split on its own. */
  lemma SplitCRLFAt(a: string, b: string)
    requires '\n' !in a
    ensures SplitCRLF(a + "\n" + b) == [DropCR(a)] + SplitCRLF(b)
  {
    assert a + "\n" + b == a + ['\n'] + b;
    SplitAtFirst(a, b, '\n');
    var tail := Split(b, '\n');
    assert ([a] + tail)[1..] == tail;
  }

  /** "\r\n" separates lines exactly as "\n" does. */
  lemma SplitCRLFAtCRLF(a: string, b: string)
    requires '\n' !in a
    ensures SplitCRLF(a + "\r\n" + b) == [a] + SplitCRLF(b)
  {
    var a' := a + "\r";
    assert a + "\r\n" + b == a' + "\n" + b;
    SplitCRLFAt(a', b);
    assert a'[..|a'| - 1] == a;
  }

  /** Lines joined with "\n", none holding "\n" and none ending in "\r", split back on
      `/\r?\n/` into the same lines. */
  lemma {:induction false} SplitCRLFJoin(xs: seq<string>)
    requires |xs| >= 1
    requires forall i :: 0 <= i < |xs| ==> '\n' !in xs[i] && (xs[i] == [] || xs[i][|xs[i]| - 1] != '\r')
    ensures SplitCRLF(Join(xs, "\n")) == xs
  {
    if |xs| == 1 {
      SplitCRLFLast(xs[0]);
    } else {
      SplitCRLFJoin(xs[1..]);
      SplitCRLFAt(xs[0], Join(xs[1..], "\n"));
      assert [xs[0]] + xs[1..] == xs;
    }
  }

  /** Length of the longest prefix of `s` without a Python line boundary. */
  function LineBreakAt(s: string): (i: nat)
    ensures i <= |s|
    ensures forall j :: 0 <= j < i ==> !IsPyLineBreak(s[j])
    ensures i < |s| ==> IsPyLineBreak(s[i])
  {
    if s == [] || IsPyLineBreak(s[0]) then 0 else 1 + LineBreakAt(s[1..])
  }

  /** Python `s.splitlines()`: no trailing empty piece, and `""` gives `[]`. */
  function SplitLines(s: string): (r: seq<string>)
    ensures forall i, j :: 0 <= i < |r| && 0 <= j < |r[i]| ==> !IsPyLineBreak(r[i][j])
    decreases |s|
  {
    if s == [] then []
    else
      var i := LineBreakAt(s);
      if i == |s| then [s]
      else
        var width := if s[i] == '\r' && i + 1 < |s| && s[i + 1] == '\n' then 2 else 1;
        [s[..i]] + SplitLines(s[i + width..])
  }

  /** A first line without a boundary ends at the next boundary character, unless that is
      a "\r" followed by "\n"; the rest of the text is split on its own. */
  lemma SplitLinesAt(a: string, c: char, b: string)
    requires forall j :: 0 <= j < |a| ==> !IsPyLineBreak(a[j])
    requires IsPyLineBreak(c) && !(c == '\r' && b != [] && b[0] == '\n')
    ensures SplitLines(a + [c] + b) == [a] + SplitLines(b)
  {
    var s := a + [c] + b;
    assert forall j :: 0 <= j < |a| ==> s[j] == a[j];
    assert s[|a|] == c;
    LineBreakAtFirst(s, |a|);
    assert |a| + 1 < |s| ==> s[|a| + 1] == b[0];
    assert s[..|a|] == a;
    assert s[|a| + 1..] == b;
  }

  /** "\r\n" is one line boundary. */
  lemma SplitLinesAtCRLF(a: string, b: string)
    requires forall j :: 0 <= j < |a| ==> !IsPyLineBreak(a[j])
    ensures SplitLines(a + "\r\n" + b) == [a] + SplitLines(b)
  {
    var s := a + "\r\n" + b;
    assert forall j :: 0 <= j < |a| ==> s[j] == a[j];
    assert s[|a|] == '\r' && s[|a| + 1] == '\n';
    LineBreakAtFirst(s, |a|);
    assert s[..|a|] == a;
    assert s[|a| + 2..] == b;
  }

  /** A text without a boundary is one line, and the empty text none. */
  lemma SplitLinesLast(a: string)
    requires forall j :: 0 <= j < |a| ==> !IsPyLineBreak(a[j])
    ensures SplitLines(a) == (if a == [] then [] else [a])
  {
  }

  /** A boundary at `k`, with none before it, is where the first line ends. */
  lemma {:induction false} LineBreakAtFirst(s: string, k: nat)
    requires k < |s| && IsPyLineBreak(s[k])
    requires forall j :: 0 <= j < k ==> !IsPyLineBreak(s[j])
    ensures LineBreakAt(s) == k
  {
    if k > 0 {
      LineBreakAtFirst(s[1..], k - 1);
    }
  }

  /** Lines joined with "\n" split back into the same lines, provided none is empty and
      none holds a line boundary. */
  lemma {:induction false} SplitLinesJoin(xs: seq<string>)
    requires forall i :: 0 <= i < |xs| ==> xs[i] != []
    requires forall i, j :: 0 <= i < |xs| && 0 <= j < |xs[i]| ==> !IsPyLineBreak(xs[i][j])
    ensures SplitLines(Join(xs, "\n")) == xs
  {
    if |xs| == 1 {
      assert LineBreakAt(xs[0]) == |xs[0]|;
    } else if |xs| > 1 {
      SplitLinesJoin(xs[1..]);
      assert Join(xs, "\n") == xs[0] + ['\n'] + Join(xs[1..], "\n");
      SplitLinesAt(xs[0], '\n', Join(xs[1..], "\n"));
      assert [xs[0]] + xs[1..] == xs;
    }
  }

  /** Each string stripped, and the ones left empty dropped, order kept: the
      `map(trim).filter(Boolean)` and `[x.strip() for x in xs if x.strip()]` idiom. */
  function CleanLines(xs: seq<string>, drop: char -> bool): (r: seq<string>)
    ensures |r| <= |xs|
    ensures forall i :: 0 <= i < |r| ==> r[i] != [] && !drop(r[i][0]) && !drop(r[i][|r[i]| - 1])
  {
    Filter(Map(xs, (x: string) => Strip(x, drop)), (x: string) => x != [])
  }

  /** One string is kept stripped, or dropped when nothing is left of it. */
  lemma CleanLinesOne(x: string, drop: char -> bool)
    ensures CleanLines([x], drop) == (if Strip(x, drop) == [] then [] else [Strip(x, drop)])
  {
    var m := Map([x], (y: string) => Strip(y, drop));
    assert m == [Strip(x, drop)];
    assert m[1..] == [];
  }

  /** A stripped character at the end of a line does not change what cleaning keeps. */
  lemma CleanLinesTrailingDropped(s: string, c: char, drop: char -> bool)
    requires drop(c)
    ensures CleanLines([s + [c]], drop) == CleanLines([s], drop)
  {
    StripAppendDropped(s, c, drop);
    CleanLinesOne(s, drop);
    CleanLinesOne(s + [c], drop);
  }

  /** Cleaning the pieces of a `/\r?\n/` split, when "\r" is stripped anyway: the first
      line is cleaned on its own, whether it ended in "\r\n" or in "\n". */
  lemma CleanSplitCRLFAt(a: string, b: string, drop: char -> bool)
    requires '\n' !in a && drop('\r')
    ensures CleanLines(SplitCRLF(a + "\n" + b), drop) == CleanLines([a], drop) + CleanLines(SplitCRLF(b), drop)
  {
    SplitCRLFAt(a, b);
    CleanLinesAppend([DropCR(a)], SplitCRLF(b), drop);
    if DropCR(a) != a {
      CleanLinesTrailingDropped(DropCR(a), '\r', drop);
    }
  }

  /** Lines that are already stripped and non-empty come through unchanged. */
  lemma CleanLinesFixed(xs: seq<string>, drop: char -> bool)
    requires forall i :: 0 <= i < |xs| ==> xs[i] != [] && !drop(xs[i][0]) && !drop(xs[i][|xs[i]| - 1])
    ensures CleanLines(xs, drop) == xs
  {
    var stripped := Map(xs, (x: string) => Strip(x, drop));
    forall i | 0 <= i < |xs| ensures stripped[i] == xs[i] {
      StripFixed(xs[i], drop);
    }
    assert stripped == xs;
    FilterKeepsAll(stripped, (x: string) => x != []);
  }

  /** Cleaning never creates two spaces in a row. */
  lemma CleanLinesNoDoubleSpace(xs: seq<string>, drop: char -> bool)
    requires forall i :: 0 <= i < |xs| ==> !HasDoubleSpace(xs[i])
    ensures forall i :: 0 <= i < |CleanLines(xs, drop)| ==> !HasDoubleSpace(CleanLines(xs, drop)[i])
  {
    var stripped := Map(xs, (x: string) => Strip(x, drop));
    forall j | 0 <= j < |stripped| ensures !HasDoubleSpace(stripped[j]) {
      var k := StripIsInfix(xs[j], drop);
      InfixInherits(xs[j], k, k + |stripped[j]|);
    }
    var r := CleanLines(xs, drop);
    forall i | 0 <= i < |r| ensures !HasDoubleSpace(r[i]) {
      assert r[i] in stripped;
    }
  }

  /** Cleaned lines are left unchanged by stripping them again. */
  lemma CleanLinesStripped(xs: seq<string>, drop: char -> bool)
    ensures forall i :: 0 <= i < |CleanLines(xs, drop)| ==>
      Strip(CleanLines(xs, drop)[i], drop) == CleanLines(xs, drop)[i]
  {
    var r := CleanLines(xs, drop);
    forall i | 0 <= i < |r| ensures Strip(r[i], drop) == r[i] {
      StripFixed(r[i], drop);
    }
  }

  /** Cleaning distributes over concatenation, so surviving lines keep their order. */
  lemma CleanLinesAppend(a: seq<string>, b: seq<string>, drop: char -> bool)
    ensures CleanLines(a + b, drop) == CleanLines(a, drop) + CleanLines(b, drop)
  {
    var f := (x: string) => Strip(x, drop);
    assert Map(a + b, f) == Map(a, f) + Map(b, f);
    FilterAppend(Map(a, f), Map(b, f), (x: string) => x != []);
  }

  /** `toLowerCase()` on the ASCII letters. */
  function ToLowerAscii(s: string): (r: string)
    ensures |r| == |s|
    ensures forall i :: 0 <= i < |s| ==> !('A' <= r[i] <= 'Z')
    ensures forall i :: 0 <= i < |s| && 'A' <= s[i] <= 'Z' ==> r[i] as int == s[i] as int + 32
    ensures forall i :: 0 <= i < |s| && !('A' <= s[i] <= 'Z') ==> r[i] == s[i]
  {
    seq(|s|, i requires 0 <= i < |s| =>
      if 'A' <= s[i] <= 'Z' then (s[i] as int + 32) as char else s[i])
  }

  /** `s.endsWith(suffix)`. */
  predicate EndsWith(s: string, suffix: string) {
    |suffix| <= |s| && s[|s| - |suffix|..] == suffix
  }

  /** `c` is `l`, or the ASCII capital of the lower-case letter `l`. */
  predicate MatchesIgnoringCase(c: char, l: char) {
    c == l || ('a' <= l <= 'z' && c as int == l as int - 32)
  }

  /** A lower-cased name ends in a suffix without capitals exactly when its last characters
      are the suffix's, each in either ASCII case. */
  lemma LowerEndsWith(name: string, suffix: string)
    requires forall i :: 0 <= i < |suffix| ==> !('A' <= suffix[i] <= 'Z')
    ensures EndsWith(ToLowerAscii(name), suffix) <==>
      |suffix| <= |name| &&
      forall i :: 0 <= i < |suffix| ==> MatchesIgnoringCase(name[|name| - |suffix| + i], suffix[i])
  {
    if |suffix| <= |name| {
      var k := |name| - |suffix|;
      var lower := ToLowerAscii(name);
      forall i | 0 <= i < |suffix|
        ensures lower[k + i] == suffix[i] <==> MatchesIgnoringCase(name[k + i], suffix[i])
      {
      }
      if forall i :: 0 <= i < |suffix| ==> lower[k + i] == suffix[i] {
        assert lower[k..] == suffix;
      }
      if lower[k..] == suffix {
        forall i | 0 <= i < |suffix| ensures lower[k + i] == suffix[i] {
          assert lower[k..][i] == lower[k + i];
        }
      }
    }
  }

  /** Python `"  " in s`. */
  predicate HasDoubleSpace(s: string) {
    exists i :: 0 <= i < |s| - 1 && s[i] == ' ' && s[i + 1] == ' '
  }

  /** A piece of a string keeps its characters and has no double space if the whole has none. */
  lemma InfixInherits(s: string, a: nat, b: nat)
    requires a <= b <= |s|
    ensures forall c :: c in s[a..b] ==> c in s
    ensures !HasDoubleSpace(s) ==> !HasDoubleSpace(s[a..b])
  {
    forall i | 0 <= i < |s[a..b]| - 1
      ensures !HasDoubleSpace(s) ==> !(s[a..b][i] == ' ' && s[a..b][i + 1] == ' ')
    {
      assert s[a..b][i] == s[a + i] && s[a..b][i + 1] == s[a + i + 1];
    }
  }

  /** Every piece of a split keeps the characters of the whole, and has no double space if
      the whole has none. */
  lemma {:induction false} SplitInherits(s: string, sep: char)
    ensures forall i, c :: 0 <= i < |Split(s, sep)| && c in Split(s, sep)[i] ==> c in s
    ensures !HasDoubleSpace(s) ==> forall i :: 0 <= i < |Split(s, sep)| ==> !HasDoubleSpace(Split(s, sep)[i])
  {
    if s != [] {
      SplitInherits(s[1..], sep);
      InfixInherits(s, 1, |s|);
      assert s[1..|s|] == s[1..];
      var rest := Split(s[1..], sep);
      if s[0] != sep {
        var first := [s[0]] + rest[0];
        assert first == s[..|first|];
        InfixInherits(s, 0, |first|);
        assert forall i :: 1 <= i < |Split(s, sep)| ==> Split(s, sep)[i] == rest[i];
      }
    }
  }

  /** Stripping a string made only of dropped characters leaves nothing. */
  lemma {:induction false} StripAllDropped(s: string, drop: char -> bool)
    requires forall i :: 0 <= i < |s| ==> drop(s[i])
    ensures Strip(s, drop) == []
  {
    if s != [] {
      StripAllDropped(s[1..], drop);
    }
  }

  /** Cleaning never brings in a character that no input line had. */
  lemma CleanLinesInherits(xs: seq<string>, drop: char -> bool, ch: char)
    requires forall i :: 0 <= i < |xs| ==> ch !in xs[i]
    ensures forall i :: 0 <= i < |CleanLines(xs, drop)| ==> ch !in CleanLines(xs, drop)[i]
  {
    var stripped := Map(xs, (x: string) => Strip(x, drop));
    forall j | 0 <= j < |stripped| ensures ch !in stripped[j] {
      var k := StripIsInfix(xs[j], drop);
      InfixInherits(xs[j], k, k + |stripped[j]|);
    }
    var r := CleanLines(xs, drop);
    forall i | 0 <= i < |r| ensures ch !in r[i] {
      assert r[i] in stripped;
    }
  }
}
