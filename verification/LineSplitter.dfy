// client_connection::split_irc: a line cut into command, middle parameters and
// trailing parameter, against the printed form of section 2.3.1 of RFC 1459.
module LineSplitter {
  import opened ByteStrings

  // indexOf(" :")
  function IndexOfTrailing(s: string): (i: int)
    ensures -1 <= i < |s| - 1 || i == -1
    ensures i >= 0 ==> s[i] == ' ' && s[i + 1] == ':'
  {
    if |s| < 2 then -1
    else if s[0] == ' ' && s[1] == ':' then 0
    else
      var i := IndexOfTrailing(s[1..]);
      if i < 0 then -1 else i + 1
  }

  // No parameter in `s[..n]` could be taken for a trailing one.
  ghost predicate NoTrailing(s: string, n: nat) {
    forall j :: 0 <= j < n && j + 1 < |s| ==> !(s[j] == ' ' && s[j + 1] == ':')
  }

  lemma {:induction false} IndexOfTrailingIs(s: string, i: nat)
    requires NoTrailing(s, i) && i + 1 < |s| && s[i] == ' ' && s[i + 1] == ':'
    ensures IndexOfTrailing(s) == i
  {
    if i > 0 {
      assert !(s[0] == ' ' && s[1] == ':');
      assert forall j :: 0 <= j < |s| - 1 ==> s[1..][j] == s[j + 1];
      IndexOfTrailingIs(s[1..], i - 1);
    }
  }

  lemma {:induction false} IndexOfTrailingNone(s: string)
    requires NoTrailing(s, |s|)
    ensures IndexOfTrailing(s) == -1
  {
    if |s| >= 2 {
      assert !(s[0] == ' ' && s[1] == ':');
      assert forall j :: 0 <= j < |s| - 1 ==> s[1..][j] == s[j + 1];
      IndexOfTrailingNone(s[1..]);
    }
  }

  function NonEmpty(parts: seq<string>): seq<string> {
    if parts == [] then []
    else NonEmpty(parts[..|parts| - 1]) + if parts[|parts| - 1] == "" then [] else [parts[|parts| - 1]]
  }

  function Given(trailing: string): seq<string> {
    if trailing == "" then [] else [trailing]
  }

  // Everything after the command's space.
  function Params(rest: string): seq<string> {
    var colon := IndexOfTrailing(rest);
    if colon < 0 then NonEmpty(Split(rest, ' '))
    else NonEmpty(Split(rest[..colon], ' ')) + Given(rest[colon + 2..])
  }

  function SplitIrc(line: string): seq<string> {
    var sp := IndexOf(line, ' ');
    if sp < 0 then [line] else [line[..sp]] + Params(line[sp + 1..])
  }

  method SplitIrcLoop(line: string) returns (out: seq<string>)
    ensures out == SplitIrc(line)
  {
    hide Split, IndexOf, IndexOfTrailing;
    var sp := IndexOf(line, ' ');
    if sp < 0 {
      return [line];
    }
    var rest, trailing := line[sp + 1..], "";
    var colon := IndexOfTrailing(rest);
    if colon >= 0 {
      trailing := rest[colon + 2..];
      rest := rest[..colon];
    }
    var params := Split(rest, ' ');
    out := [line[..sp]];
    for i := 0 to |params|
      invariant out == [line[..sp]] + NonEmpty(params[..i])
    {
      assert params[..i + 1][..i] == params[..i];
      if params[i] != "" {
        out := out + [params[i]];
      }
    }
    assert params[..|params|] == params;
    if trailing != "" {
      out := out + [trailing];
    }
  }

  // ----- The printed form

  predicate IsWord(w: string) {
    w != "" && ' ' !in w
  }

  // Middle parameters: words, and only the first may begin with a colon.
  ghost predicate AreMiddles(middles: seq<string>) {
    && (forall i :: 0 <= i < |middles| ==> IsWord(middles[i]))
    && (forall i :: 1 <= i < |middles| ==> middles[i][0] != ':')
  }

  function Print(cmd: string, middles: seq<string>, trailing: string): string {
    Join([cmd] + middles, ' ') + if trailing == "" then "" else " :" + trailing
  }

  lemma {:induction false} MiddlesHideNoTrailing(middles: seq<string>)
    requires AreMiddles(middles)
    ensures NoTrailing(Join(middles, ' '), |Join(middles, ' ')|)
  {
    if |middles| > 1 {
      var w, rest := middles[0], Join(middles[1..], ' ');
      MiddlesHideNoTrailing(middles[1..]);
      var s := Join(middles, ' ');
      assert s == w + [' '] + rest;
      assert rest[0] == middles[1][0] by {
        assert |middles| > 2 ==> rest == middles[1] + ([' '] + Join(middles[2..], ' ')) by {
          assert middles[1..][1..] == middles[2..];
        }
      }
      forall j | 0 <= j < |s| && j + 1 < |s| ensures !(s[j] == ' ' && s[j + 1] == ':') {
        if j > |w| {
          assert s[j] == rest[j - |w| - 1] && s[j + 1] == rest[j - |w|];
        }
      }
    } else if |middles| == 1 {
      assert Join(middles, ' ') == middles[0];
    }
  }

  lemma {:induction false} NonEmptyWords(parts: seq<string>)
    requires forall i :: 0 <= i < |parts| ==> IsWord(parts[i])
    ensures NonEmpty(parts) == parts
  {
    if parts != [] {
      NonEmptyWords(parts[..|parts| - 1]);
    }
  }

  lemma SplitAfterCommand(cmd: string, rest: string)
    requires ' ' !in cmd
    ensures SplitIrc(cmd + " " + rest) == [cmd] + Params(rest)
  {
    hide IndexOf, Params;
    var line := cmd + " " + rest;
    assert line[..|cmd|] == cmd && line[|cmd|] == ' ' && line[|cmd| + 1..] == rest;
    IndexOfUnique(line, ' ', |cmd|);
  }

  lemma ParamsPrinted(middles: seq<string>, trailing: string)
    requires AreMiddles(middles) && middles != []
    ensures Params(Join(middles, ' ') + if trailing == "" then "" else " :" + trailing) == middles + Given(trailing)
  {
    hide Split, IndexOfTrailing, NonEmpty, Join, NoTrailing;
    var m := Join(middles, ' ');
    MiddlesHideNoTrailing(middles);
    SplitJoin(middles, ' ');
    NonEmptyWords(middles);
    if trailing == "" {
      assert m + "" == m;
      IndexOfTrailingNone(m);
    } else {
      var rest := m + (" :" + trailing);
      NoTrailingIn(m, trailing);
      assert rest[..|m|] == m && rest[|m| + 2..] == trailing;
      IndexOfTrailingIs(rest, |m|);
    }
  }

  // ----- Lines that were not printed

  lemma {:induction false} NonEmptyParts(parts: seq<string>)
    ensures "" !in NonEmpty(parts)
  {
    if parts != [] {
      NonEmptyParts(parts[..|parts| - 1]);
    }
  }

  // Whatever the line, no parameter is empty.
  lemma NoEmptyParameter(line: string)
    ensures "" !in SplitIrc(line)[1..]
  {
    hide IndexOf, IndexOfTrailing, Split, NonEmpty;
    forall parts: seq<string> ensures "" !in NonEmpty(parts) {
      NonEmptyParts(parts);
    }
  }

  lemma SplitAt(front: string, back: string, c: char)
    requires c !in front
    ensures Split(front + [c] + back, c) == [front] + Split(back, c)
    ensures Split(front, c) == [front]
  {
    hide IndexOf;
    var s := front + [c] + back;
    assert s[..|front|] == front && s[|front|] == c && s[|front| + 1..] == back;
    IndexOfUnique(s, c, |front|);
  }

  lemma {:induction false} SplitAppend(x: string, y: string, c: char)
    ensures Split(x + [c] + y, c) == Split(x, c) + Split(y, c)
    decreases |x|
  {
    hide IndexOf, Split;
    var i := IndexOf(x, c);
    if i < 0 {
      SplitAt(x, y, c);
    } else {
      var front, back := x[..i], x[i + 1..];
      SplitAppend(back, y, c);
      SplitAt(front, back, c);
      SplitAt(front, back + [c] + y, c);
      assert x == front + [c] + back && x + [c] + y == front + [c] + (back + [c] + y);
    }
  }

  lemma {:induction false} NonEmptyAppend(a: seq<string>, b: seq<string>)
    ensures NonEmpty(a + b) == NonEmpty(a) + NonEmpty(b)
  {
    if b == [] {
      assert a + b == a;
    } else {
      NonEmptyAppend(a, b[..|b| - 1]);
      assert (a + b)[..|a + b| - 1] == a + b[..|b| - 1];
    }
  }

  // The words of a text do not depend on how many spaces separate them.
  lemma WordsIgnoreSpace(front: string, back: string)
    ensures NonEmpty(Split(front + "  " + back, ' ')) == NonEmpty(Split(front + " " + back, ' '))
  {
    hide Split, NonEmpty;
    SplitAppend(front, back, ' ');
    SplitAppend(front + " ", back, ' ');
    SplitAppend(front, "", ' ');
    assert front + " " + [' '] + back == front + "  " + back && front + [' '] + "" == front + " ";
    SplitNothing();
    NonEmptyAppend(Split(front, ' '), Split(back, ' '));
    NonEmptyAppend(Split(front, ' ') + [""], Split(back, ' '));
    NonEmptyAppend(Split(front, ' '), [""]);
  }

  lemma SplitNothing()
    ensures Split("", ' ') == [""] && NonEmpty([""]) == []
  {
  }

  // The first " :" from the end of `front` on; an extra space in between moves it by one.
  lemma TrailingMoves(front: string, back: string)
    requires NoTrailing(front, |front|)
    ensures var i, j := IndexOfTrailing(front + " " + back), IndexOfTrailing(front + "  " + back);
            && (i < 0 <==> j < 0) && (i >= 0 ==> i >= |front| && j == i + 1)
  {
    hide IndexOfTrailing;
    var s, r := front + " " + back, front + "  " + back;
    var i := IndexOfTrailing(s);
    TrailingIsFirst(s);
    assert forall k :: 0 <= k < |front| ==> s[k] == front[k] == r[k];
    assert forall k :: |front| <= k < |s| ==> s[k] == r[k + 1];
    assert s[|front|] == r[|front|] == ' ';
    forall k | 0 <= k < (if i < 0 then |r| else i + 1) && k + 1 < |r| ensures !(r[k] == ' ' && r[k + 1] == ':') {
      if k > |front| {
        assert s[k - 1] == r[k] && s[k] == r[k + 1];
      }
    }
    if i < 0 {
      IndexOfTrailingNone(r);
    } else {
      IndexOfTrailingIs(r, i + 1);
    }
  }

  lemma {:induction false} TrailingIsFirst(s: string)
    ensures var i := IndexOfTrailing(s);
            if i < 0 then NoTrailing(s, |s|) else NoTrailing(s, i) && s[i] == ' ' && s[i + 1] == ':'
  {
    if |s| >= 2 && !(s[0] == ' ' && s[1] == ':') {
      TrailingIsFirst(s[1..]);
      assert forall j :: 1 <= j < |s| ==> s[j] == s[1..][j - 1];
    }
  }

  // One more space between two parameters, before the trailing one begins, changes nothing.
  lemma ExtraSpaceIsIgnored(cmd: string, front: string, back: string)
    requires ' ' !in cmd && NoTrailing(front, |front|)
    ensures SplitIrc(cmd + " " + (front + "  " + back)) == SplitIrc(cmd + " " + (front + " " + back))
  {
    hide SplitIrc, IndexOfTrailing, Split, NonEmpty, NoTrailing;
    var s, r := front + " " + back, front + "  " + back;
    SplitAfterCommand(cmd, s);
    SplitAfterCommand(cmd, r);
    TrailingMoves(front, back);
    var i := IndexOfTrailing(s);
    if i < 0 {
      WordsIgnoreSpace(front, back);
    } else {
      assert r[i + 3..] == s[i + 2..];
      if i == |front| {
        assert s[..i] == front && r[..i + 1] == front + [' '] + "";
        SplitAppend(front, "", ' ');
        SplitNothing();
        NonEmptyAppend(Split(front, ' '), [""]);
      } else {
        var mid := back[..i - |front| - 1];
        assert s[..i] == front + " " + mid && r[..i + 1] == front + "  " + mid;
        WordsIgnoreSpace(front, mid);
      }
    }
  }

  // ----- The printed form and back

  // With at least one middle parameter, or no trailing one to print, splitting
  // gives back what was printed.
  lemma SplitPrint(cmd: string, middles: seq<string>, trailing: string)
    requires ' ' !in cmd && AreMiddles(middles) && (middles == [] ==> trailing == "")
    ensures SplitIrc(Print(cmd, middles, trailing)) == [cmd] + middles + Given(trailing)
  {
    hide Params, Join;
    if middles == [] {
      JoinOne(cmd);
    } else {
      var m := Join(middles, ' ');
      var rest := m + if trailing == "" then "" else " :" + trailing;
      JoinCons(cmd, middles);
      assert Print(cmd, middles, trailing) == cmd + " " + rest;
      SplitAfterCommand(cmd, rest);
      ParamsPrinted(middles, trailing);
    }
  }

  lemma NoTrailingIn(m: string, trailing: string)
    requires NoTrailing(m, |m|)
    ensures NoTrailing(m + (" :" + trailing), |m|)
  {
    var s := m + (" :" + trailing);
    forall j | 0 <= j < |m| && j + 1 < |s| ensures !(s[j] == ' ' && s[j + 1] == ':') {
      if j + 1 < |m| {
        assert s[j] == m[j] && s[j + 1] == m[j + 1];
      }
    }
  }

  lemma JoinOne(cmd: string)
    ensures Join([cmd] + [], ' ') == cmd && cmd + "" == cmd
  {
    assert [cmd] + [] == [cmd];
  }

  lemma JoinCons(cmd: string, middles: seq<string>)
    requires middles != []
    ensures Join([cmd] + middles, ' ') == cmd + " " + Join(middles, ' ')
  {
    assert ([cmd] + middles)[1..] == middles;
  }

  // Straight after the command a trailing parameter is not recognised: its first
  // word comes back with the colon in front.
  lemma TrailingAfterCommand(cmd: string, trailing: string)
    requires ' ' !in cmd && trailing != ""
    ensures SplitIrc(Print(cmd, [], trailing)) != [cmd, trailing]
  {
    hide IndexOf, IndexOfTrailing, Join, NonEmpty;
    var line, rest := Print(cmd, [], trailing), ":" + trailing;
    JoinOne(cmd);
    assert line == cmd + " " + rest;
    SplitAfterCommand(cmd, rest);
    var colon := IndexOfTrailing(rest);
    var body := if colon < 0 then rest else rest[..colon];
    assert colon != 0;
    FirstPiece(body);
    var parts := Split(body, ' ');
    assert SplitIrc(line)[1] == parts[0];
    SplitPieces(body, ' ');
    if ' ' !in trailing {
      assert ' ' !in rest;
      assert parts == [rest];
    }
  }

  lemma FirstPiece(s: string)
    requires s != "" && s[0] == ':'
    ensures var parts := Split(s, ' ');
            parts[0] != "" && parts[0][0] == ':' && NonEmpty(parts) != [] && NonEmpty(parts)[0] == parts[0]
  {
    FirstKept(Split(s, ' '));
  }

  lemma {:induction false} FirstKept(parts: seq<string>)
    requires parts != [] && parts[0] != ""
    ensures NonEmpty(parts) != [] && NonEmpty(parts)[0] == parts[0]
  {
    if |parts| > 1 {
      FirstKept(parts[..|parts| - 1]);
    }
  }

  // The round trip holds for a printed trailing parameter exactly when a middle
  // parameter precedes it.
  lemma SplitPrintIffMiddle(cmd: string, middles: seq<string>, trailing: string)
    requires ' ' !in cmd && AreMiddles(middles) && trailing != ""
    ensures SplitIrc(Print(cmd, middles, trailing)) == [cmd] + middles + [trailing] <==> middles != []
  {
    hide SplitIrc, Print;
    if middles == [] {
      TrailingAfterCommand(cmd, trailing);
      assert [cmd] + middles + [trailing] == [cmd, trailing];
    } else {
      SplitPrint(cmd, middles, trailing);
    }
  }
}
