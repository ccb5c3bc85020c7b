// The 005 loop of try_finalize_setup: isupport tokens packed into lines of at most
// IRC_MAX_LEN bytes before the closing text.
module IsupportPacking {
  import opened ByteStrings
  import opened LineSplitter

  const IRC_MAX_LEN: nat := 480
  // "are supported by this server"
  const CLOSING: seq<string> := ["supported", "by", "this", "server"]
  const SUPPORTED: string := "are" + " " + Join(CLOSING, ' ')

  datatype Entry = Entry(key: string, value: string)

  function Token(e: Entry): string {
    if e.value != "" then e.key + "=" + e.value else e.key
  }

  function Tokens(entries: seq<Entry>): (r: seq<string>)
    ensures |r| == |entries|
  {
    seq(|entries|, i requires 0 <= i < |entries| => Token(entries[i]))
  }

  // The token groups of the lines sent so far, and the group being filled.
  datatype Packing = Packing(sent: seq<seq<string>>, current: seq<string>)

  function Payload(base: string, group: seq<string>): string {
    base + Join(group, ' ')
  }

  // An empty token at the start of a line leaves no trace: the line is still the base.
  function Placed(group: seq<string>, token: string): seq<string> {
    if group == [] && token == "" then [] else group + [token]
  }

  function Step(base: string, p: Packing, token: string): Packing {
    if |Payload(base, p.current)| + |token| + 1 > IRC_MAX_LEN then Packing(p.sent + [p.current], Placed([], token))
    else p.(current := Placed(p.current, token))
  }

  function Packed(base: string, tokens: seq<string>): Packing {
    if tokens == [] then Packing([], [])
    else Step(base, Packed(base, tokens[..|tokens| - 1]), tokens[|tokens| - 1])
  }

  // A flush in the middle of the list leaves no space before the closing text.
  function MiddleLine(base: string, group: seq<string>): string {
    Payload(base, group) + ":" + SUPPORTED
  }

  function FinalLine(base: string, group: seq<string>): string {
    Payload(base, group) + " :" + SUPPORTED
  }

  function MiddleLines(base: string, groups: seq<seq<string>>): seq<string> {
    if groups == [] then []
    else MiddleLines(base, groups[..|groups| - 1]) + [MiddleLine(base, groups[|groups| - 1])]
  }

  function Lines(base: string, p: Packing): seq<string> {
    MiddleLines(base, p.sent) + if p.current == [] then [] else [FinalLine(base, p.current)]
  }

  lemma {:induction false} JoinSnoc(parts: seq<string>, last: string, c: char)
    ensures Join(parts + [last], c) == if parts == [] then last else Join(parts, c) + [c] + last
  {
    if parts == [] {
      assert parts + [last] == [last];
    } else if |parts| > 1 {
      JoinSnoc(parts[1..], last, c);
      assert (parts + [last])[1..] == parts[1..] + [last];
      assert parts[0] + [c] + (Join(parts[1..], c) + [c] + last) == parts[0] + [c] + Join(parts[1..], c) + [c] + last;
    } else {
      assert (parts + [last])[1..] == [last];
    }
  }

  lemma EmptyPayload(base: string)
    ensures Payload(base, []) == base
  {
  }

  // The string under construction, and the test `current != base` that stands for
  // "the current line has tokens".
  ghost predicate Filling(base: string, group: seq<string>, current: string) {
    && current == Payload(base, group)
    && (current == base <==> group == [])
  }

  lemma AppendToken(base: string, group: seq<string>, current: string, token: string)
    requires Filling(base, group, current)
    ensures Filling(base, Placed(group, token), (if current != base then current + " " else current) + token)
  {
    hide Join;
    JoinSnoc(group, token, ' ');
    if group != [] {
      assert current + " " + token == base + (Join(group, ' ') + [' '] + token);
    }
  }

  method SendIsupport(account_nick: string, isupport: seq<Entry>) returns (lines: seq<string>)
    ensures lines == Lines("005 " + account_nick + " ", Packed("005 " + account_nick + " ", Tokens(isupport)))
  {
    var base := "005 " + account_nick + " ";
    EmptyPayload(base);
    hide Join, Payload, Placed;
    var current := base;
    lines := [];
    ghost var p := Packing([], []);
    ghost var tokens := Tokens(isupport);
    for i := 0 to |isupport|
      invariant p == Packed(base, tokens[..i])
      invariant lines == MiddleLines(base, p.sent) && Filling(base, p.current, current)
    {
      assert tokens[..i + 1][..i] == tokens[..i];
      var token := Token(isupport[i]);
      ghost var group := p.current;
      if |current| + |token| + 1 > IRC_MAX_LEN {
        current := current + ":" + SUPPORTED;
        lines := lines + [current];
        assert (p.sent + [p.current])[..|p.sent|] == p.sent;
        current := base;
        group := [];
      }
      AppendToken(base, group, current, token);
      if current != base {
        current := current + " ";
      }
      current := current + token;
      p := Step(base, p, token);
      assert p.current == Placed(group, token);
    }
    assert tokens[..|isupport|] == tokens;
    if current != base {
      current := current + " :" + SUPPORTED;
      lines := lines + [current];
    }
  }

  // A token is read back at its first '=': key, then value, which is missing if empty.
  lemma TokenReads(e: Entry)
    requires '=' !in e.key
    ensures var token := Token(e);
            var i := IndexOf(token, '=');
            && (e.value == "" <==> i < 0) && (i < 0 ==> token == e.key)
            && (i >= 0 ==> token[..i] == e.key && token[i + 1..] == e.value)
  {
    if e.value != "" {
      var token := Token(e);
      assert token[..|e.key|] == e.key && token[|e.key|] == '=' && token[|e.key| + 1..] == e.value;
      IndexOfUnique(token, '=', |e.key|);
    }
  }

  // ----- Conservation

  function Flat(groups: seq<seq<string>>): seq<string> {
    if groups == [] then [] else Flat(groups[..|groups| - 1]) + groups[|groups| - 1]
  }

  function Carried(p: Packing): seq<string> {
    Flat(p.sent + [p.current])
  }

  lemma CarriedIs(p: Packing)
    ensures Carried(p) == Flat(p.sent) + p.current
  {
    FlatSnoc(p.sent, p.current);
  }

  lemma CarriedStep(base: string, p: Packing, token: string)
    ensures || Carried(Step(base, p, token)) == Carried(p) + [token]
            || (token == "" && Carried(Step(base, p, token)) == Carried(p))
  {
    hide Carried, Payload, Flat;
    CarriedIs(p);
    CarriedIs(Step(base, p, token));
    FlatSnoc(p.sent, p.current);
  }

  lemma NonEmptySnoc(parts: seq<string>, last: string)
    ensures NonEmpty(parts + [last]) == NonEmpty(parts) + if last == "" then [] else [last]
  {
    assert (parts + [last])[..|parts|] == parts;
  }

  // Read in order, the lines carry every token exactly once, in iteration order.
  lemma {:induction false} TokensConserved(base: string, tokens: seq<string>)
    ensures NonEmpty(Carried(Packed(base, tokens))) == NonEmpty(tokens)
    ensures "" !in tokens ==> Carried(Packed(base, tokens)) == tokens
  {
    hide Carried, Step, Flat, NonEmpty;
    if tokens != [] {
      var front, token := tokens[..|tokens| - 1], tokens[|tokens| - 1];
      TokensConserved(base, front);
      CarriedStep(base, Packed(base, front), token);
      NonEmptySnoc(front, token);
      NonEmptySnoc(Carried(Packed(base, front)), token);
      assert tokens == front + [token];
    } else {
      CarriedIs(Packing([], []));
      FlatNone();
    }
  }

  lemma FlatNone()
    ensures Flat([]) == [] && NonEmpty([]) == []
  {
  }

  lemma FlatSnoc(groups: seq<seq<string>>, last: seq<string>)
    ensures Flat(groups + [last]) == Flat(groups) + last
  {
    assert (groups + [last])[..|groups|] == groups;
  }

  ghost predicate AllFit(base: string, tokens: seq<string>) {
    forall i :: 0 <= i < |tokens| ==> tokens[i] != "" && |base| + |tokens[i]| + 1 <= IRC_MAX_LEN
  }

  ghost predicate GoodGroup(base: string, group: seq<string>) {
    group != [] && |Payload(base, group)| <= IRC_MAX_LEN
  }

  // If base plus any one token fits, no line is empty and none is too long.
  lemma {:induction false} LinesAreGood(base: string, tokens: seq<string>)
    requires AllFit(base, tokens)
    ensures var p := Packed(base, tokens);
            && (forall k :: 0 <= k < |p.sent| ==> GoodGroup(base, p.sent[k]))
            && (tokens != [] ==> GoodGroup(base, p.current))
            && (tokens == [] ==> p == Packing([], []))
  {
    hide Join;
    if tokens != [] {
      var front, token := tokens[..|tokens| - 1], tokens[|tokens| - 1];
      LinesAreGood(base, front);
      var p := Packed(base, front);
      EmptyPayload(base);
      JoinSnoc(p.current, token, ' ');
      JoinSnoc([], token, ' ');
      assert [] + [token] == [token];
    }
  }

  // ----- What the server's own splitter reads back

  ghost predicate AreTokens(group: seq<string>) {
    group != [] && forall i :: 0 <= i < |group| ==> IsWord(group[i]) && group[i][0] != ':'
  }

  lemma PayloadIsPrinted(account_nick: string, group: seq<string>)
    requires group != []
    ensures Payload("005 " + account_nick + " ", group) == Print("005", [account_nick] + group, "")
  {
    hide Join;
    JoinCons("005", [account_nick] + group);
    JoinCons(account_nick, group);
    var j := Join(group, ' ');
    assert "005 " + account_nick + " " + j == "005" + " " + (account_nick + " " + j) + "";
  }

  // The final line splits into exactly its tokens and the closing text.
  lemma FinalLineReads(account_nick: string, group: seq<string>)
    requires IsWord(account_nick) && AreTokens(group)
    ensures SplitIrc(FinalLine("005 " + account_nick + " ", group))
         == ["005", account_nick] + group + [SUPPORTED]
  {
    hide SplitIrc, Join, Payload;
    PayloadIsPrinted(account_nick, group);
    var middles := [account_nick] + group;
    SplitPrint("005", middles, SUPPORTED);
    assert FinalLine("005 " + account_nick + " ", group) == Print("005", middles, SUPPORTED);
    assert ["005"] + middles + [SUPPORTED] == ["005", account_nick] + group + [SUPPORTED];
  }

  // A line flushed in the middle does not: its last token swallows ":are", and the
  // closing text falls apart into parameters.
  lemma MiddleLineReads(account_nick: string, group: seq<string>)
    requires IsWord(account_nick) && AreTokens(group)
    ensures var n := |group| - 1;
            (SplitIrc(MiddleLine("005 " + account_nick + " ", group))
            == ["005", account_nick] + group[..n] + [group[n] + ":are"] + CLOSING)
  {
    hide SplitIrc, Join;
    var n := |group| - 1;
    var base := "005 " + account_nick + " ";
    var glued := group[..n] + [group[n] + ":are"];
    var middles := [account_nick] + glued + CLOSING;
    GluedPayload(base, group);
    SplitPrint("005", middles, "");
    PayloadIsPrinted(account_nick, glued + CLOSING);
    assert [account_nick] + (glued + CLOSING) == middles;
    assert ["005"] + middles + [] == ["005", account_nick] + group[..n] + [group[n] + ":are"] + CLOSING;
  }

  lemma {:induction false} JoinAppend(a: seq<string>, b: seq<string>, c: char)
    requires a != [] && b != []
    ensures Join(a + b, c) == Join(a, c) + [c] + Join(b, c)
  {
    if |a| == 1 {
      assert (a + b)[1..] == b;
    } else {
      JoinAppend(a[1..], b, c);
      assert (a + b)[1..] == a[1..] + b;
      assert a[0] + [c] + (Join(a[1..], c) + [c] + Join(b, c)) == a[0] + [c] + Join(a[1..], c) + [c] + Join(b, c);
    }
  }

  lemma GluedPayload(base: string, group: seq<string>)
    requires group != []
    ensures var n := |group| - 1;
            MiddleLine(base, group) == Payload(base, group[..n] + [group[n] + ":are"] + CLOSING)
  {
    hide Join;
    var n := |group| - 1;
    var g, words := group[..n] + [group[n] + ":are"], CLOSING;
    assert group == group[..n] + [group[n]];
    JoinSnoc(group[..n], group[n], ' ');
    JoinSnoc(group[..n], group[n] + ":are", ' ');
    assert Join(g, ' ') == Join(group, ' ') + ":are";
    JoinAppend(g, words, ' ');
    var w := Join(words, ' ');
    Regroup(base, Join(group, ' '), w);
  }

  lemma Regroup(base: string, j: string, w: string)
    ensures base + j + ":" + ("are" + " " + w) == base + (j + ":are" + [' '] + w)
  {
  }

  // ----- Which lists read back

  // With the words of the closing text glued on, a middle line loses its group; only
  // one without tokens reads back.
  ghost predicate Reads(account_nick: string, line: string, group: seq<string>) {
    SplitIrc(line) == ["005", account_nick] + group + [SUPPORTED]
  }

  function Groups(p: Packing): seq<seq<string>> {
    p.sent + if p.current == [] then [] else [p.current]
  }

  // The lines that are sent, one for each group.
  ghost predicate EveryLineReads(account_nick: string, lines: seq<string>, groups: seq<seq<string>>) {
    |lines| == |groups| && forall k :: 0 <= k < |lines| ==> Reads(account_nick, lines[k], groups[k])
  }

  lemma {:induction false} MiddleLinesAt(base: string, groups: seq<seq<string>>)
    ensures |MiddleLines(base, groups)| == |groups|
    ensures forall k :: 0 <= k < |groups| ==> MiddleLines(base, groups)[k] == MiddleLine(base, groups[k])
  {
    hide MiddleLine;
    if groups != [] {
      MiddleLinesAt(base, groups[..|groups| - 1]);
    }
  }

  lemma MiddleLineReadsIff(account_nick: string, group: seq<string>)
    requires IsWord(account_nick) && (group != [] ==> AreTokens(group))
    ensures Reads(account_nick, MiddleLine("005 " + account_nick + " ", group), group) <==> group == []
  {
    hide SplitIrc, Join;
    if group == [] {
      var base := "005 " + account_nick + " ";
      EmptyPayload(base);
      SplitPrint("005", [account_nick], SUPPORTED);
      JoinTwo("005", account_nick);
      assert MiddleLine(base, []) == Print("005", [account_nick], SUPPORTED);
    } else {
      MiddleLineReads(account_nick, group);
    }
  }

  lemma JoinTwo(a: string, b: string)
    ensures Join([a] + [b], ' ') == a + [' '] + b
  {
    JoinSnoc([a], b, ' ');
  }

  // The whole list fits into one line, or there is nothing to pack it with.
  predicate OneLine(base: string, tokens: seq<string>) {
    |tokens| <= 1 || |Payload(base, tokens)| <= IRC_MAX_LEN
  }

  lemma PayloadSnoc(base: string, group: seq<string>, token: string)
    requires group != []
    ensures |Payload(base, group + [token])| == |Payload(base, group)| + |token| + 1
  {
    hide Join;
    JoinSnoc(group, token, ' ');
  }

  lemma {:induction false} FlushesUnlessOneLine(base: string, tokens: seq<string>)
    requires "" !in tokens
    ensures var p := Packed(base, tokens);
            && (tokens != [] ==> p.current != [])
            && (if OneLine(base, tokens) then p.current == tokens && forall k :: 0 <= k < |p.sent| ==> p.sent[k] == []
                else exists k :: 0 <= k < |p.sent| && p.sent[k] != [])
  {
    hide Payload;
    if tokens != [] {
      var front, token := tokens[..|tokens| - 1], tokens[|tokens| - 1];
      FlushesUnlessOneLine(base, front);
      var was, p := Packed(base, front), Packed(base, tokens);
      assert p == Step(base, was, token);
      assert front + [token] == tokens;
      if front != [] {
        PayloadSnoc(base, front, token);
        if !OneLine(base, front) {
          var k :| 0 <= k < |was.sent| && was.sent[k] != [];
          assert p.sent[k] != [];
        } else if !OneLine(base, tokens) {
          assert p.sent[|was.sent|] == front;
        }
      }
    }
  }

  lemma PackedSnoc(base: string, front: seq<string>, token: string)
    ensures Packed(base, front + [token]) == Step(base, Packed(base, front), token)
    ensures Packed(base, []) == Packing([], [])
  {
    hide Step;
    assert (front + [token])[..|front|] == front;
  }

  // No line is flushed in the middle exactly if the first token and the whole list fit.
  lemma {:induction false} NoFlushIff(base: string, tokens: seq<string>)
    requires "" !in tokens && tokens != []
    ensures var p := Packed(base, tokens);
            && (p.sent == [] <==>
                |base| + |tokens[0]| + 1 <= IRC_MAX_LEN && |Payload(base, tokens)| <= IRC_MAX_LEN)
            && (p.sent == [] ==> p.current == tokens)
  {
    hide Payload, Packed;
    var front, token := tokens[..|tokens| - 1], tokens[|tokens| - 1];
    assert front + [token] == tokens;
    PackedSnoc(base, front, token);
    if front == [] {
      EmptyPayload(base);
      OnePayload(base, token);
    } else {
      NoFlushIff(base, front);
      PayloadSnoc(base, front, token);
    }
  }

  lemma OnePayload(base: string, token: string)
    ensures Payload(base, [token]) == base + token
  {
  }

  ghost predicate AllTokens(tokens: seq<string>) {
    forall i :: 0 <= i < |tokens| ==> IsWord(tokens[i]) && tokens[i][0] != ':'
  }

  lemma {:induction false} GroupsOfTokens(base: string, tokens: seq<string>)
    requires AllTokens(tokens)
    ensures var p := Packed(base, tokens);
            AllTokens(p.current) && forall k :: 0 <= k < |p.sent| ==> AllTokens(p.sent[k])
  {
    hide Payload, IsWord;
    if tokens != [] {
      GroupsOfTokens(base, tokens[..|tokens| - 1]);
    }
  }

  // Every line the server sends reads back as its tokens and the closing text exactly
  // if one line was enough.
  lemma LinesReadIffOneLine(account_nick: string, tokens: seq<string>)
    requires IsWord(account_nick) && AllTokens(tokens)
    ensures var base := "005 " + account_nick + " ";
            var p := Packed(base, tokens);
            EveryLineReads(account_nick, Lines(base, p), Groups(p)) <==> OneLine(base, tokens)
  {
    hide SplitIrc, Payload, IsWord, Packed, Reads, OneLine, MiddleLine, FinalLine, MiddleLines;
    var base := "005 " + account_nick + " ";
    var p := Packed(base, tokens);
    assert "" !in tokens by { WordsAreNotEmpty(tokens); }
    FlushesUnlessOneLine(base, tokens);
    GroupsOfTokens(base, tokens);
    MiddleLinesAt(base, p.sent);
    var lines, groups := Lines(base, p), Groups(p);
    forall k | 0 <= k < |p.sent|
      ensures Reads(account_nick, lines[k], groups[k]) <==> p.sent[k] == []
    {
      assert lines[k] == MiddleLine(base, p.sent[k]) && groups[k] == p.sent[k];
      MiddleLineReadsIff(account_nick, p.sent[k]);
    }
    if p.current != [] {
      assert lines[|p.sent|] == FinalLine(base, p.current) && groups[|p.sent|] == p.current;
      FinalLineIsRead(account_nick, p.current);
    }
    if k :| 0 <= k < |p.sent| && p.sent[k] != [] {
      assert !Reads(account_nick, lines[k], groups[k]);
    }
  }

  lemma WordsAreNotEmpty(tokens: seq<string>)
    requires AllTokens(tokens)
    ensures "" !in tokens
  {
  }

  lemma FinalLineIsRead(account_nick: string, group: seq<string>)
    requires IsWord(account_nick) && AreTokens(group)
    ensures Reads(account_nick, FinalLine("005 " + account_nick + " ", group), group)
  {
    hide SplitIrc;
    FinalLineReads(account_nick, group);
  }

  lemma TwiceFlushes(base: string, token: string)
    requires |base| + |token| + 1 == IRC_MAX_LEN && token != ""
    ensures Packed(base, [token, token]) == Packing([[token]], [token])
  {
    hide Payload, Packed;
    EmptyPayload(base);
    OnePayload(base, token);
    PackedSnoc(base, [], token);
    PackedSnoc(base, [token], token);
    assert [] + [token] == [token] && [token] + [token] == [token, token];
  }

  // Two tokens that each just fit make the server flush in the middle.
  lemma FlushOccurs(base: string)
    requires |base| + 2 <= IRC_MAX_LEN
    ensures var token := seq(IRC_MAX_LEN - |base| - 1, _ => 'A');
            && AllFit(base, [token, token]) && AreTokens([token, token])
            && Packed(base, [token, token]) == Packing([[token]], [token])
  {
    hide Packed;
    TwiceFlushes(base, seq(IRC_MAX_LEN - |base| - 1, _ => 'A'));
  }
}
