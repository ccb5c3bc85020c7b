// MODE lines: the letter tables of irc/modes.cpp, Channel::setMode, and the loops of
// handleMODE that apply a line and announce what it changed.
module Modes {
  import opened Options
  import opened BitFlags

  const INVITE_ONLY: Bits := 0x001
  const MODERATED: Bits := 0x002
  const NO_OUTSIDE_MSGS: Bits := 0x004
  const QUIET: Bits := 0x008
  const SECRET: Bits := 0x010
  const TOPIC_PROTECTED: Bits := 0x020
  const BAN: Bits := 0x040
  const KEY: Bits := 0x080
  const LIMIT: Bits := 0x100

  // channelModesLookupLetter
  function ChannelMode(letter: char): Option<Bits> {
    match letter
    case 'i' => Some(INVITE_ONLY)
    case 'm' => Some(MODERATED)
    case 'n' => Some(NO_OUTSIDE_MSGS)
    case 'q' => Some(QUIET)
    case 's' => Some(SECRET)
    case 't' => Some(TOPIC_PROTECTED)
    case 'b' => Some(BAN)
    case 'k' => Some(KEY)
    case 'l' => Some(LIMIT)
    case _ => None
  }

  // userModesLookupLetter
  function UserMode(letter: char): Option<Bits> {
    match letter
    case 'i' => Some(0x0001)
    case 'x' => Some(0x0002)
    case 'R' => Some(0x0004)
    case 'b' => Some(0x0008)
    case 'd' => Some(0x0010)
    case 'r' => Some(0x0020)
    case 'g' => Some(0x0040)
    case 'p' => Some(0x0080)
    case 'c' => Some(0x0100)
    case 'Z' => Some(0x0200)
    case 'o' => Some(0x0400)
    case 'O' => Some(0x0800)
    case 'w' => Some(0x1000)
    case 's' => Some(0x2000)
    case 'q' => Some(0x4000)
    case 'k' => Some(0x8000)
    case _ => None
  }

  // The letters in the order of the tables: the i-th one names bit i.
  lemma ChannelLetterBits(i: nat)
    requires i < 9
    ensures ChannelMode("imnqstbkl"[i]) == Some((1 as Bits) << i)
  {
  }

  lemma UserLetterBits(i: nat)
    requires i < 16
    ensures UserMode("ixRbdrgpcZoOwsqk"[i]) == Some((1 as Bits) << i)
  {
  }

  lemma NoOtherLetters(letter: char)
    ensures ChannelMode(letter).Some? <==> letter in "imnqstbkl"
    ensures UserMode(letter).Some? <==> letter in "ixRbdrgpcZoOwsqk"
  {
  }

  lemma ModesAreBits(letter: char)
    ensures ChannelMode(letter).Some? ==> OneBit(ChannelMode(letter).value)
    ensures UserMode(letter).Some? ==> OneBit(UserMode(letter).value)
  {
  }

  // ----- Channel::setMode

  datatype ChannelState = ChannelState(modes: Bits, key: string, limit: int, bans: set<string>)

  // `toInt` is QByteArray::toInt.
  function WithMode(
    c: ChannelState, mode: Bits, adding: bool, arg: string, toInt: string -> Option<int>): ChannelState
  {
    if mode == KEY then
      if adding then c.(key := arg, modes := Set(c.modes, KEY)) else c.(key := "", modes := Clear(c.modes, KEY))
    else if mode == LIMIT then
      if !adding then c.(limit := 0, modes := Clear(c.modes, LIMIT))
      else if toInt(arg).Some? && toInt(arg).value >= 0 then c.(limit := toInt(arg).value, modes := Set(c.modes, LIMIT))
      else c
    else if mode == BAN then
      if arg == "" then c else if adding then c.(bans := c.bans + {arg}) else c.(bans := c.bans - {arg})
    else if IsPlain(mode) then c.(modes := if adding then Set(c.modes, mode) else Clear(c.modes, mode))
    else c
  }

  // The modes without an argument.
  predicate IsPlain(mode: Bits) {
    || mode == INVITE_ONLY || mode == MODERATED || mode == NO_OUTSIDE_MSGS
    || mode == QUIET || mode == SECRET || mode == TOPIC_PROTECTED
  }

  class Channel {
    var channel_modes: Bits
    var m_key: string
    var m_limit: int
    var m_ban_masks: set<string>

    ghost function State(): ChannelState
      reads this
    {
      ChannelState(channel_modes, m_key, m_limit, m_ban_masks)
    }

    constructor ()
      ensures State() == NewChannel()
    {
      channel_modes := Set(Set(0, NO_OUTSIDE_MSGS), TOPIC_PROTECTED);
      m_key, m_limit, m_ban_masks := "", 0, {};
    }

    method SetKey(k: string)
      modifies `m_key
      ensures m_key == k
    {
      if m_key != k {
        m_key := k;
      }
    }

    method AddBan(mask: string)
      modifies `m_ban_masks
      ensures m_ban_masks == if mask == "" then old(m_ban_masks) else old(m_ban_masks) + {mask}
    {
      if mask != "" {
        m_ban_masks := m_ban_masks + {mask};
      }
    }

    method RemoveBan(mask: string)
      modifies `m_ban_masks
      ensures m_ban_masks == if mask == "" then old(m_ban_masks) else old(m_ban_masks) - {mask}
    {
      if mask != "" {
        m_ban_masks := m_ban_masks - {mask};
      }
    }

    method SetMode(mode: Bits, adding: bool, arg: string, toInt: string -> Option<int>)
      modifies this
      ensures State() == WithMode(old(State()), mode, adding, arg, toInt)
    {
      hide Set, Clear;
      if mode == KEY {
        if adding {
          SetKey(arg);
          channel_modes := Set(channel_modes, mode);
        } else {
          SetKey("");
          channel_modes := Clear(channel_modes, mode);
        }
      } else if mode == LIMIT {
        if adding {
          var newLimit := toInt(arg);
          if newLimit.Some? && newLimit.value >= 0 {
            m_limit := newLimit.value;
            channel_modes := Set(channel_modes, mode);
          }
        } else {
          m_limit := 0;
          channel_modes := Clear(channel_modes, mode);
        }
      } else if mode == BAN {
        if adding {
          AddBan(arg);
        } else {
          RemoveBan(arg);
        }
      } else if IsPlain(mode) {
        channel_modes := if adding then Set(channel_modes, mode) else Clear(channel_modes, mode);
      }
    }
  }

  function NewChannel(): ChannelState {
    ChannelState(Set(Set(0, NO_OUTSIDE_MSGS), TOPIC_PROTECTED), "", 0, {})
  }

  // A new channel takes no messages from outside, and only operators set its topic.
  lemma NewChannelModes(letter: char)
    requires ChannelMode(letter).Some?
    ensures Has(NewChannel().modes, ChannelMode(letter).value) <==> letter == 'n' || letter == 't'
    ensures NewChannel().key == "" && NewChannel().limit == 0 && NewChannel().bans == {}
  {
  }

  // ----- One channel MODE line

  predicate TakesArg(mode: Bits) {
    mode == BAN || mode == KEY || mode == LIMIT
  }

  // The loop's variables: the channel, the cursor into the arguments, whether some
  // letter was invalid, and the letters to announce.
  datatype Progress = Progress(channel: ChannelState, argIndex: nat, invalid: bool, result: string)

  function OneLetter(
    p: Progress, letter: char, adding: bool, args: seq<string>, toInt: string -> Option<int>): Progress
  {
    match ChannelMode(letter)
    case None => p.(invalid := true)
    case Some(mode) =>
      if TakesArg(mode) && p.argIndex >= |args| then p.(invalid := true)
      else
        var c := WithMode(p.channel, mode, adding, if TakesArg(mode) then args[p.argIndex] else "", toInt);
        Progress(c, if TakesArg(mode) then p.argIndex + 1 else p.argIndex, p.invalid,
                 if Has(p.channel.modes, mode) != Has(c.modes, mode) then p.result + [letter] else p.result)
  }

  // The letters applied left to right; args[0] is the target, args[1] the mode string.
  function Applied(
    c: ChannelState, letters: string, adding: bool, args: seq<string>, toInt: string -> Option<int>): Progress
  {
    if letters == "" then Progress(c, 2, false, "")
    else
      var n := |letters| - 1;
      OneLetter(Applied(c, letters[..n], adding, args, toInt), letters[n], adding, args, toInt)
  }

  datatype Reply = Nothing | UnknownModeFlag | EndOfBanList | Announce(adding: bool, letters: string)

  function ChannelReply(p: Progress, adding: bool): Reply {
    if p.invalid then UnknownModeFlag
    else if p.result != "" then Announce(adding, p.result)
    else Nothing
  }

  // handleMODE from the mode string on, for an existing channel.
  method HandleChannelMode(channel: Channel, args: seq<string>, toInt: string -> Option<int>) returns (reply: Reply)
    requires |args| >= 2
    modifies channel
    ensures args[1] == "" || (args[1][0] != '+' && args[1][0] != '-') ==>
              && reply == (if args[1] == "b" then EndOfBanList else UnknownModeFlag)
              && channel.State() == old(channel.State())
    ensures args[1] != "" && (args[1][0] == '+' || args[1][0] == '-') ==>
              var adding := args[1][0] == '+';
              var p := Applied(old(channel.State()), args[1][1..], adding, args, toInt);
              channel.State() == p.channel && reply == ChannelReply(p, adding)
  {
    hide Has, WithMode;
    var requested := args[1];
    if requested == "b" {
      return EndOfBanList;
    }
    if requested == "" || (requested[0] != '+' && requested[0] != '-') {
      return UnknownModeFlag;
    }
    var adding := requested[0] == '+';
    var result, invalid, argIndex := "", false, 2;
    ghost var letters := requested[1..];
    for i := 1 to |requested|
      invariant argIndex >= 2
      invariant Progress(channel.State(), argIndex, invalid, result)
             == Applied(old(channel.State()), letters[..i - 1], adding, args, toInt)
    {
      assert letters[..i][..i - 1] == letters[..i - 1] && letters[i - 1] == requested[i];
      var letter := requested[i];
      var mode := ChannelMode(letter);
      if mode == None {
        invalid := true;
        continue;
      }
      var modeArg := "";
      if TakesArg(mode.value) {
        if argIndex < |args| {
          modeArg := args[argIndex];
          argIndex := argIndex + 1;
        } else {
          invalid := true;
          continue;
        }
      }
      var before := Has(channel.channel_modes, mode.value);
      channel.SetMode(mode.value, adding, modeArg, toInt);
      if before != Has(channel.channel_modes, mode.value) {
        result := result + [letter];
      }
    }
    assert letters[..|requested| - 1] == letters;
    if invalid {
      return UnknownModeFlag;
    }
    return if result != "" then Announce(adding, result) else Nothing;
  }

  // ----- Announcements are faithful

  // What a client that hears "+letters" or "-letters" does to its copy of the flags.
  function Heard(bits: Bits, adding: bool, letters: string, lookup: char -> Option<Bits>): Bits {
    if letters == "" then bits
    else
      var n := |letters| - 1;
      var before := Heard(bits, adding, letters[..n], lookup);
      match lookup(letters[n])
      case None => before
      case Some(mode) => if adding then Set(before, mode) else Clear(before, mode)
  }

  function Switch(bits: Bits, mode: Bits, adding: bool): Bits {
    if adding then Set(bits, mode) else Clear(bits, mode)
  }

  // Setting a mode either leaves the flags alone or switches that one bit; which of
  // the two shows in the bit itself.
  lemma WithModeSwitches(c: ChannelState, mode: Bits, adding: bool, arg: string, toInt: string -> Option<int>)
    requires OneBit(mode)
    ensures var c' := WithMode(c, mode, adding, arg, toInt);
            && (c'.modes == c.modes || c'.modes == Switch(c.modes, mode, adding))
            && (Has(c.modes, mode) == Has(c'.modes, mode) ==> c'.modes == c.modes)
            && (mode == BAN ==> c'.modes == c.modes)
  {
    hide OneBit, Has, Set, Clear;
    SwitchLaws(c.modes, mode, adding);
  }

  lemma SwitchLaws(bits: Bits, mode: Bits, adding: bool)
    requires OneBit(mode)
    ensures Has(Switch(bits, mode, adding), mode) == adding
    ensures Has(bits, mode) == adding ==> Switch(bits, mode, adding) == bits
  {
    SetHas(bits, mode, mode);
    ClearHas(bits, mode, mode);
    if Has(bits, mode) {
      SetPresent(bits, mode);
    } else {
      ClearAbsent(bits, mode);
    }
  }

  lemma SwitchOther(bits: Bits, mode: Bits, other: Bits, adding: bool)
    requires OneBit(mode) && OneBit(other) && Has(bits, other) == adding
    ensures Has(Switch(bits, mode, adding), other) == adding
  {
    SetHas(bits, mode, other);
    ClearHas(bits, mode, other);
  }

  ghost predicate Distinct(letters: string) {
    forall i, j :: 0 <= i < j < |letters| ==> letters[i] != letters[j]
  }

  // Every announced letter names a mode that has switched to the announced value, and
  // no mode has switched away from it.
  ghost predicate Settled(was: Bits, bits: Bits, adding: bool, letters: string, lookup: char -> Option<Bits>) {
    && (forall i :: 0 <= i < |letters| ==> SwitchedTo(was, bits, adding, lookup(letters[i])))
    && (forall mode :: OneBit(mode) && Has(was, mode) == adding ==> Has(bits, mode) == adding)
  }

  ghost predicate SwitchedTo(was: Bits, bits: Bits, adding: bool, mode: Option<Bits>) {
    mode.Some? && OneBit(mode.value) && Has(was, mode.value) != adding && Has(bits, mode.value) == adding
  }

  lemma AnnounceOne(was: Bits, bits: Bits, adding: bool, letters: string, letter: char, lookup: char -> Option<Bits>)
    requires Heard(was, adding, letters, lookup) == bits
    requires Settled(was, bits, adding, letters, lookup) && Distinct(letters)
    requires lookup(letter).Some? && OneBit(lookup(letter).value) && Has(bits, lookup(letter).value) != adding
    ensures var bits' := Switch(bits, lookup(letter).value, adding);
            && Heard(was, adding, letters + [letter], lookup) == bits'
            && Settled(was, bits', adding, letters + [letter], lookup) && Distinct(letters + [letter])
  {
    hide Has, OneBit;
    var mode := lookup(letter).value;
    var more := letters + [letter];
    assert more[..|letters|] == letters;
    SwitchLaws(bits, mode, adding);
    forall other | OneBit(other) && Has(bits, other) == adding
      ensures Has(Switch(bits, mode, adding), other) == adding
    {
      SwitchOther(bits, mode, other, adding);
    }
  }

  // The state of the announcement after some letters of the line.
  ghost predicate Faithful(was: Bits, bits: Bits, adding: bool, letters: string, lookup: char -> Option<Bits>) {
    Heard(was, adding, letters, lookup) == bits && Settled(was, bits, adding, letters, lookup) && Distinct(letters)
  }

  lemma NothingAnnounced(bits: Bits, adding: bool, lookup: char -> Option<Bits>)
    ensures Faithful(bits, bits, adding, "", lookup)
  {
  }

  lemma LetterIsFaithful(
      was: Bits, p: Progress, letter: char, adding: bool, args: seq<string>, toInt: string -> Option<int>)
    requires Faithful(was, p.channel.modes, adding, p.result, ChannelMode) && 'b' !in p.result
    ensures var q := OneLetter(p, letter, adding, args, toInt);
            Faithful(was, q.channel.modes, adding, q.result, ChannelMode) && 'b' !in q.result
  {
    hide WithMode, Has, OneBit, Switch, Settled, Heard, Distinct;
    ModesAreBits(letter);
    match ChannelMode(letter)
    case None =>
    case Some(mode) =>
      if !(TakesArg(mode) && p.argIndex >= |args|) {
        var arg := if TakesArg(mode) then args[p.argIndex] else "";
        WithModeSwitches(p.channel, mode, adding, arg, toInt);
        SwitchLaws(p.channel.modes, mode, adding);
        if Has(p.channel.modes, mode) != adding {
          AnnounceOne(was, p.channel.modes, adding, p.result, letter, ChannelMode);
        }
      }
  }

  lemma {:induction false} LineIsFaithful(
      c: ChannelState, letters: string, adding: bool, args: seq<string>, toInt: string -> Option<int>)
    ensures var p := Applied(c, letters, adding, args, toInt);
            Faithful(c.modes, p.channel.modes, adding, p.result, ChannelMode) && 'b' !in p.result
  {
    hide OneLetter, Faithful;
    if letters == "" {
      NothingAnnounced(c.modes, adding, ChannelMode);
    } else {
      var n := |letters| - 1;
      LineIsFaithful(c, letters[..n], adding, args, toInt);
      LetterIsFaithful(c.modes, Applied(c, letters[..n], adding, args, toInt), letters[n], adding, args, toInt);
    }
  }

  // Hearing letters changes no mode that none of them names.
  lemma {:induction false} HeardOnlyThose(
      was: Bits, adding: bool, letters: string, lookup: char -> Option<Bits>, mode: Bits)
    requires OneBit(mode)
    requires forall i :: 0 <= i < |letters| ==>
      lookup(letters[i]).Some? && OneBit(lookup(letters[i]).value) && lookup(letters[i]).value != mode
    ensures Has(Heard(was, adding, letters, lookup), mode) == Has(was, mode)
  {
    hide Has, OneBit;
    if letters != "" {
      var n := |letters| - 1;
      HeardOnlyThose(was, adding, letters[..n], lookup, mode);
      SetHas(Heard(was, adding, letters[..n], lookup), lookup(letters[n]).value, mode);
      ClearHas(Heard(was, adding, letters[..n], lookup), lookup(letters[n]).value, mode);
    }
  }

  // The letters announced are exactly those whose mode changed.
  lemma FaithfulIsExact(
      was: Bits, bits: Bits, adding: bool, letters: string, lookup: char -> Option<Bits>, letter: char)
    requires Faithful(was, bits, adding, letters, lookup)
    requires lookup(letter).Some? && OneBit(lookup(letter).value)
    requires forall other :: other != letter && lookup(other).Some? ==> lookup(other).value != lookup(letter).value
    ensures letter in letters <==> Has(was, lookup(letter).value) != Has(bits, lookup(letter).value)
  {
    hide Has, OneBit;
    if letter !in letters {
      HeardOnlyThose(was, adding, letters, lookup, lookup(letter).value);
    }
  }

  lemma ChannelLettersDiffer(letter: char)
    requires ChannelMode(letter).Some?
    ensures forall other :: other != letter && ChannelMode(other).Some? ==>
      ChannelMode(other).value != ChannelMode(letter).value
  {
  }

  // Applying the announced sign and letters to the old flags gives the new ones, each
  // letter is announced once, and exactly the changed modes are. The flags follow even
  // where an invalid letter suppresses the announcement.
  lemma ChannelLineIsADelta(
      c: ChannelState, letters: string, adding: bool, args: seq<string>, toInt: string -> Option<int>, letter: char)
    requires ChannelMode(letter).Some?
    ensures var p := Applied(c, letters, adding, args, toInt);
            && Heard(c.modes, adding, p.result, ChannelMode) == p.channel.modes && Distinct(p.result)
            && (letter in p.result <==>
                Has(c.modes, ChannelMode(letter).value) != Has(p.channel.modes, ChannelMode(letter).value))
            && (!p.invalid ==>
                  ChannelReply(p, adding) == if p.result == "" then Nothing else Announce(adding, p.result))
  {
    hide Applied, Has, OneBit, Heard, Settled, Distinct;
    LineIsFaithful(c, letters, adding, args, toInt);
    ModesAreBits(letter);
    ChannelLettersDiffer(letter);
    var p := Applied(c, letters, adding, args, toInt);
    FaithfulIsExact(c.modes, p.channel.modes, adding, p.result, ChannelMode, letter);
  }

  // A change can go untold: +sz sets the secret flag and announces nothing.
  lemma InvalidLineIsSilent(c: ChannelState, toInt: string -> Option<int>)
    requires !Has(c.modes, SECRET)
    ensures var p := Applied(c, "sz", true, ["#c", "+sz"], toInt);
            Has(p.channel.modes, SECRET) && p.result == "s" && ChannelReply(p, true) == UnknownModeFlag
  {
    var args := ["#c", "+sz"];
    var none: string := "";
    assert "s"[..0] == none && "sz"[..1] == "s";
    assert Applied(c, none, true, args, toInt) == Progress(c, 2, false, "");
    SwitchLaws(c.modes, SECRET, true);
    var p1 := Applied(c, "s", true, args, toInt);
    assert p1.channel == c.(modes := Set(c.modes, SECRET)) && p1.result == "s";
    assert Applied(c, "sz", true, args, toInt) == p1.(invalid := true);
  }

  // ----- Arguments

  predicate Asks(letter: char) {
    letter == 'b' || letter == 'k' || letter == 'l'
  }

  lemma AsksExactly(letter: char)
    ensures Asks(letter) <==> ChannelMode(letter).Some? && TakesArg(ChannelMode(letter).value)
  {
  }

  // How many letters of a line ask for an argument.
  function Asking(letters: string): nat {
    if letters == "" then 0
    else
      var n := |letters| - 1;
      Asking(letters[..n]) + if Asks(letters[n]) then 1 else 0
  }

  predicate KnownLetters(letters: string) {
    forall i :: 0 <= i < |letters| ==> ChannelMode(letters[i]).Some?
  }

  // Arguments go to b, k and l letters left to right, one each, until they run out;
  // a line is invalid exactly if it has an unknown letter or too few arguments.
  lemma {:induction false} ArgumentsInOrder(
      c: ChannelState, letters: string, adding: bool, args: seq<string>, toInt: string -> Option<int>)
    requires |args| >= 2
    ensures var p := Applied(c, letters, adding, args, toInt);
            && p.argIndex == (if 2 + Asking(letters) <= |args| then 2 + Asking(letters) else |args|)
            && (p.invalid <==> !KnownLetters(letters) || 2 + Asking(letters) > |args|)
  {
    hide WithMode, Has;
    if letters != "" {
      var n := |letters| - 1;
      AsksExactly(letters[n]);
      ArgumentsInOrder(c, letters[..n], adding, args, toInt);
      assert KnownLetters(letters) <==> KnownLetters(letters[..n]) && ChannelMode(letters[n]).Some?;
    }
  }

  // The letter at `n` gets the argument of its own place among the asking letters, if
  // there is one; without it the channel stays as it was.
  lemma LetterGetsItsArgument(
      c: ChannelState, letters: string, adding: bool, args: seq<string>, toInt: string -> Option<int>, n: nat)
    requires |args| >= 2 && n < |letters| && ChannelMode(letters[n]).Some?
    ensures var mode := ChannelMode(letters[n]).value;
            var k := 2 + Asking(letters[..n]);
            var before := Applied(c, letters[..n], adding, args, toInt).channel;
            (Applied(c, letters[..n + 1], adding, args, toInt).channel
            == if !TakesArg(mode) then WithMode(before, mode, adding, "", toInt)
               else if k < |args| then WithMode(before, mode, adding, args[k], toInt)
               else before)
  {
    hide WithMode, Has, ChannelMode, TakesArg;
    ArgumentsInOrder(c, letters[..n], adding, args, toInt);
    assert letters[..n + 1][..n] == letters[..n];
  }

  // ----- What a line does to bans, key and limit

  // The letter at `n` is this one, and there is an argument for it.
  predicate Reached(letters: string, n: nat, letter: char, args: seq<string>)
    requires n < |letters|
  {
    letters[n] == letter && 2 + Asking(letters[..n]) < |args|
  }

  function ArgOf(letters: string, n: nat, letter: char, args: seq<string>): string
    requires n < |letters| && Reached(letters, n, letter, args)
  {
    args[2 + Asking(letters[..n])]
  }

  // A b letter of the line got this mask.
  ghost predicate Names(letters: string, args: seq<string>, mask: string) {
    exists n :: 0 <= n < |letters| && Reached(letters, n, 'b', args) && ArgOf(letters, n, 'b', args) == mask
  }

  // `n` is the last of this letter that got an argument that counts.
  ghost predicate IsLast(letters: string, n: nat, letter: char, args: seq<string>, counts: string -> bool)
    requires n < |letters|
  {
    && Reached(letters, n, letter, args) && counts(ArgOf(letters, n, letter, args))
    && forall m :: n < m < |letters| && Reached(letters, m, letter, args) ==> !counts(ArgOf(letters, m, letter, args))
  }

  ghost predicate SomeReached(letters: string, letter: char, args: seq<string>, counts: string -> bool) {
    exists n :: 0 <= n < |letters| && Reached(letters, n, letter, args) && counts(ArgOf(letters, n, letter, args))
  }

  lemma LastLetter(
      c: ChannelState, letters: string, adding: bool, args: seq<string>, toInt: string -> Option<int>)
    requires |args| >= 2 && letters != ""
    ensures var n := |letters| - 1;
            var before := Applied(c, letters[..n], adding, args, toInt).channel;
            var after := Applied(c, letters, adding, args, toInt).channel;
            && (forall letter :: Asks(letter) && Reached(letters, n, letter, args) ==>
                 ChannelMode(letter).Some? &&
                 after == WithMode(before, ChannelMode(letter).value, adding, ArgOf(letters, n, letter, args), toInt))
            && ((forall letter :: Asks(letter) ==> !Reached(letters, n, letter, args)) ==>
                 after.bans == before.bans && after.key == before.key && after.limit == before.limit)
  {
    hide Applied, Asking, WithMode, ChannelMode, TakesArg, Asks;
    var n := |letters| - 1;
    var letter := letters[n];
    AsksExactly(letter);
    assert letters[..n + 1] == letters;
    if ChannelMode(letter).Some? {
      LetterGetsItsArgument(c, letters, adding, args, toInt, n);
      var before := Applied(c, letters[..n], adding, args, toInt).channel;
      if !TakesArg(ChannelMode(letter).value) {
        PlainKeepsTheRest(before, ChannelMode(letter).value, adding, "", toInt);
      } else {
        assert Asks(letter);
        assert 2 + Asking(letters[..n]) < |args| ==> Reached(letters, n, letter, args);
      }
    } else {
      UnknownChangesNothing(c, letters, adding, args, toInt);
    }
  }

  lemma PlainKeepsTheRest(c: ChannelState, mode: Bits, adding: bool, arg: string, toInt: string -> Option<int>)
    requires !TakesArg(mode)
    ensures var d := WithMode(c, mode, adding, arg, toInt);
            d.bans == c.bans && d.key == c.key && d.limit == c.limit
  {
  }

  lemma ReachedMore(letters: string, letter: char, args: seq<string>)
    requires letters != ""
    ensures var n := |letters| - 1;
            forall i :: 0 <= i < n ==>
              && (Reached(letters, i, letter, args) <==> Reached(letters[..n], i, letter, args))
              && (Reached(letters, i, letter, args) ==>
                   ArgOf(letters, i, letter, args) == ArgOf(letters[..n], i, letter, args))
  {
    hide Asking;
    var n := |letters| - 1;
    forall i | 0 <= i < n ensures letters[..n][..i] == letters[..i] && letters[..n][i] == letters[i] {
    }
  }

  // What the three letters do to a channel.
  lemma AskingModes(c: ChannelState, adding: bool, arg: string, toInt: string -> Option<int>)
    ensures var d := WithMode(c, BAN, adding, arg, toInt);
            && d.key == c.key && d.limit == c.limit
            && forall mask :: mask in d.bans <==>
                 if mask == arg && mask != "" then adding else mask in c.bans
    ensures var d := WithMode(c, KEY, adding, arg, toInt);
            d.bans == c.bans && d.limit == c.limit && d.key == if adding then arg else ""
    ensures var d := WithMode(c, LIMIT, adding, arg, toInt);
            && d.bans == c.bans && d.key == c.key
            && d.limit == if !adding then 0
                          else if toInt(arg).Some? && toInt(arg).value >= 0 then toInt(arg).value
                          else c.limit
  {
    hide Set, Clear;
  }

  lemma AskingLetters()
    ensures ChannelMode('b') == Some(BAN) && ChannelMode('k') == Some(KEY) && ChannelMode('l') == Some(LIMIT)
    ensures Asks('b') && Asks('k') && Asks('l')
  {
  }

  // A letter that asks is one of the three, and only one.
  lemma OtherAsking(letters: string, n: nat, args: seq<string>)
    requires n < |letters|
    ensures forall letter :: Reached(letters, n, letter, args) ==> letters[n] == letter
    ensures forall letter :: Asks(letter) ==> letter == 'b' || letter == 'k' || letter == 'l'
  {
  }

  // An argument that moves the limit: any if the line removes, a number from 0 on if it adds.
  function Moves(adding: bool, toInt: string -> Option<int>): string -> bool {
    arg => !adding || (toInt(arg).Some? && toInt(arg).value >= 0)
  }

  function LimitOf(adding: bool, toInt: string -> Option<int>, arg: string): int
    requires Moves(adding, toInt)(arg)
  {
    if adding then toInt(arg).value else 0
  }

  // What the last letter of a line does to bans, key and limit.
  lemma LastLetterDoes(
      c: ChannelState, letters: string, adding: bool, args: seq<string>, toInt: string -> Option<int>)
    requires |args| >= 2 && letters != ""
    ensures var n := |letters| - 1;
            var before := Applied(c, letters[..n], adding, args, toInt).channel;
            var after := Applied(c, letters, adding, args, toInt).channel;
            && (forall mask :: mask in after.bans <==>
                 if Reached(letters, n, 'b', args) && ArgOf(letters, n, 'b', args) == mask && mask != ""
                 then adding else mask in before.bans)
            && after.key == (if Reached(letters, n, 'k', args)
                             then (if adding then ArgOf(letters, n, 'k', args) else "")
                             else before.key)
            && after.limit == if Reached(letters, n, 'l', args) && Moves(adding, toInt)(ArgOf(letters, n, 'l', args))
                              then LimitOf(adding, toInt, ArgOf(letters, n, 'l', args))
                              else before.limit
  {
    hide Reached, ArgOf, WithMode, ChannelMode, Asks, Applied;
    var n := |letters| - 1;
    LastLetter(c, letters, adding, args, toInt);
    OtherAsking(letters, n, args);
    AskingLetters();
    var before := Applied(c, letters[..n], adding, args, toInt).channel;
    forall letter | Asks(letter) && Reached(letters, n, letter, args) {
      AskingModes(before, adding, ArgOf(letters, n, letter, args), toInt);
    }
  }

  // A non-empty mask is banned after a line as the sign says if some b letter got it, and
  // as before otherwise.
  lemma {:induction false} BansAfterLine(
      c: ChannelState, letters: string, adding: bool, args: seq<string>, toInt: string -> Option<int>, mask: string)
    requires |args| >= 2 && mask != ""
    ensures mask in Applied(c, letters, adding, args, toInt).channel.bans
       <==> if Names(letters, args, mask) then adding else mask in c.bans
  {
    hide Reached, ArgOf, WithMode, ChannelMode, Asks, OneLetter;
    if letters != "" {
      hide Applied;
      var n := |letters| - 1;
      BansAfterLine(c, letters[..n], adding, args, toInt, mask);
      OneMoreBan(letters, args, mask);
      LastLetterDoes(c, letters, adding, args, toInt);
    }
  }

  lemma OneMoreBan(letters: string, args: seq<string>, mask: string)
    requires letters != ""
    ensures var n := |letters| - 1;
            (Names(letters, args, mask) <==>
              || Names(letters[..n], args, mask)
              || (Reached(letters, n, 'b', args) && ArgOf(letters, n, 'b', args) == mask))
  {
    hide Reached, ArgOf;
    ReachedMore(letters, 'b', args);
  }

  // The key after a line is the argument of the last k letter that got one, or empty if
  // the line removes; without such a letter it stays.
  lemma {:induction false} KeyAfterLine(
      c: ChannelState, letters: string, adding: bool, args: seq<string>, toInt: string -> Option<int>)
    requires |args| >= 2
    ensures var key := Applied(c, letters, adding, args, toInt).channel.key;
            && (forall n :: 0 <= n < |letters| && IsLast(letters, n, 'k', args, _ => true) ==>
                 key == if adding then ArgOf(letters, n, 'k', args) else "")
            && (!SomeReached(letters, 'k', args, _ => true) ==> key == c.key)
  {
    hide Reached, ArgOf, WithMode, ChannelMode, Asks, OneLetter;
    if letters != "" {
      hide Applied;
      var n := |letters| - 1;
      KeyAfterLine(c, letters[..n], adding, args, toInt);
      LastMore(letters, 'k', args, _ => true);
      LastLetterDoes(c, letters, adding, args, toInt);
    }
  }

  // The last such letter of a line is its last letter, or the last one before.
  lemma LastMore(letters: string, letter: char, args: seq<string>, counts: string -> bool)
    requires letters != ""
    ensures var n, front := |letters| - 1, letters[..|letters| - 1];
            var ends := Reached(letters, n, letter, args) && counts(ArgOf(letters, n, letter, args));
            && (IsLast(letters, n, letter, args, counts) <==> ends)
            && (forall i :: 0 <= i < n ==>
                 (IsLast(letters, i, letter, args, counts) <==> !ends && IsLast(front, i, letter, args, counts)))
            && (forall i :: 0 <= i < n && IsLast(front, i, letter, args, counts) ==>
                 Reached(letters, i, letter, args) &&
                 ArgOf(letters, i, letter, args) == ArgOf(front, i, letter, args))
            && (SomeReached(letters, letter, args, counts) <==> ends || SomeReached(front, letter, args, counts))
  {
    hide Reached, ArgOf;
    ReachedMore(letters, letter, args);
  }

  // The limit after +l is the number of the last l letter that got one, and after -l it is
  // 0 if some l letter got an argument; otherwise it stays.
  lemma {:induction false} LimitAfterLine(
      c: ChannelState, letters: string, adding: bool, args: seq<string>, toInt: string -> Option<int>)
    requires |args| >= 2
    ensures var limit := Applied(c, letters, adding, args, toInt).channel.limit;
            && (forall n :: 0 <= n < |letters| && IsLast(letters, n, 'l', args, Moves(adding, toInt)) ==>
                 limit == LimitOf(adding, toInt, ArgOf(letters, n, 'l', args)))
            && (!SomeReached(letters, 'l', args, Moves(adding, toInt)) ==> limit == c.limit)
  {
    hide Reached, ArgOf, WithMode, ChannelMode, Asks, OneLetter, Moves, LimitOf;
    if letters != "" {
      hide Applied;
      LimitAfterLine(c, letters[..|letters| - 1], adding, args, toInt);
      LastMore(letters, 'l', args, Moves(adding, toInt));
      LastLetterDoes(c, letters, adding, args, toInt);
    }
  }

  // ----- What a line does to the flags

  // The letters of the table.
  function Known(letters: string): string {
    if letters == "" then ""
    else
      var n := |letters| - 1;
      if ChannelMode(letters[n]).Some? then Known(letters[..n]) + [letters[n]] else Known(letters[..n])
  }

  // Unknown letters change nothing but the reply: the channel, the arguments used and
  // the changes noted are those of the line without them.
  lemma {:induction false} UnknownLettersAreSkipped(
      c: ChannelState, letters: string, adding: bool, args: seq<string>, toInt: string -> Option<int>)
    ensures var p, q := Applied(c, letters, adding, args, toInt), Applied(c, Known(letters), adding, args, toInt);
            p.channel == q.channel && p.argIndex == q.argIndex && p.result == q.result
  {
    hide WithMode, Has, ChannelMode, TakesArg;
    if letters != "" {
      var n := |letters| - 1;
      UnknownLettersAreSkipped(c, letters[..n], adding, args, toInt);
      var front := Known(letters[..n]);
      assert (front + [letters[n]])[..|front|] == front;
    }
  }

  // The letter at `n` switches its flag to the sign of the line: b never does, k and l
  // need an argument, and +l a number that is not negative.
  ghost predicate Switches(letters: string, n: nat, adding: bool, args: seq<string>, toInt: string -> Option<int>)
    requires n < |letters|
  {
    var k := 2 + Asking(letters[..n]);
    match ChannelMode(letters[n])
    case None => false
    case Some(mode) =>
      && mode != BAN
      && (TakesArg(mode) ==> k < |args|)
      && (mode == LIMIT && adding ==> toInt(args[k]).Some? && toInt(args[k]).value >= 0)
  }

  ghost predicate SomeSwitches(
    letters: string, adding: bool, args: seq<string>, toInt: string -> Option<int>, mode: Bits)
  {
    exists n :: 0 <= n < |letters| && ChannelMode(letters[n]) == Some(mode) && Switches(letters, n, adding, args, toInt)
  }

  lemma SomeSwitchesMore(letters: string, adding: bool, args: seq<string>, toInt: string -> Option<int>, mode: Bits)
    requires letters != ""
    ensures var n := |letters| - 1;
            (SomeSwitches(letters, adding, args, toInt, mode) <==>
              || SomeSwitches(letters[..n], adding, args, toInt, mode)
              || (ChannelMode(letters[n]) == Some(mode) && Switches(letters, n, adding, args, toInt)))
  {
    hide ChannelMode, Asking;
    var front := letters[..|letters| - 1];
    forall i | 0 <= i < |front|
      ensures front[i] == letters[i]
      ensures Switches(front, i, adding, args, toInt) <==> Switches(letters, i, adding, args, toInt)
    {
      assert front[..i] == letters[..i];
    }
  }

  lemma WithModeHas(c: ChannelState, named: Bits, adding: bool, arg: string, toInt: string -> Option<int>, mode: Bits)
    requires OneBit(named) && OneBit(mode)
    requires TakesArg(named) || IsPlain(named)
    ensures Has(WithMode(c, named, adding, arg, toInt).modes, mode)
         == if named == mode && named != BAN
               && (named == LIMIT && adding ==> toInt(arg).Some? && toInt(arg).value >= 0)
            then adding else Has(c.modes, mode)
  {
    hide OneBit, Has, Set, Clear;
    SetHas(c.modes, named, mode);
    ClearHas(c.modes, named, mode);
  }

  lemma EveryModeIsHandled(letter: char)
    requires ChannelMode(letter).Some?
    ensures TakesArg(ChannelMode(letter).value) || IsPlain(ChannelMode(letter).value)
  {
  }

  // The flags after a line: a mode has the sign of the line if some letter switches it,
  // and its old value otherwise.
  lemma {:induction false} FlagsAfterLine(
      c: ChannelState, letters: string, adding: bool, args: seq<string>, toInt: string -> Option<int>, mode: Bits)
    requires |args| >= 2 && OneBit(mode)
    ensures Has(Applied(c, letters, adding, args, toInt).channel.modes, mode)
         == if SomeSwitches(letters, adding, args, toInt, mode) then adding else Has(c.modes, mode)
  {
    hide OneBit, Has, WithMode, ChannelMode, Asking, IsPlain;
    if letters != "" {
      hide Applied, SomeSwitches;
      var n := |letters| - 1;
      FlagsAfterLine(c, letters[..n], adding, args, toInt, mode);
      SomeSwitchesMore(letters, adding, args, toInt, mode);
      var before := Applied(c, letters[..n], adding, args, toInt).channel;
      assert letters[..n + 1] == letters;
      if ChannelMode(letters[n]).Some? {
        var named, k := ChannelMode(letters[n]).value, 2 + Asking(letters[..n]);
        LetterGetsItsArgument(c, letters, adding, args, toInt, n);
        ModesAreBits(letters[n]);
        EveryModeIsHandled(letters[n]);
        WithModeHas(before, named, adding, if TakesArg(named) && k < |args| then args[k] else "", toInt, mode);
      } else {
        UnknownChangesNothing(c, letters, adding, args, toInt);
      }
    }
  }

  lemma UnknownChangesNothing(
      c: ChannelState, letters: string, adding: bool, args: seq<string>, toInt: string -> Option<int>)
    requires letters != "" && ChannelMode(letters[|letters| - 1]) == None
    ensures Applied(c, letters, adding, args, toInt).channel
         == Applied(c, letters[..|letters| - 1], adding, args, toInt).channel
  {
  }

  // The flags of a client that had the old ones and hears the reply.
  function HeardFrom(bits: Bits, reply: Reply): Bits {
    match reply
    case Announce(adding, letters) => Heard(bits, adding, letters, ChannelMode)
    case _ => bits
  }

  // Some letter switches a flag that did not have the sign of the line.
  ghost predicate ChangesFlags(
    c: ChannelState, letters: string, adding: bool, args: seq<string>, toInt: string -> Option<int>)
  {
    exists n :: 0 <= n < |letters|
      && Switches(letters, n, adding, args, toInt) && Has(c.modes, ChannelMode(letters[n]).value) != adding
  }

  lemma FlagsChangeExactly(
      c: ChannelState, letters: string, adding: bool, args: seq<string>, toInt: string -> Option<int>)
    requires |args| >= 2
    ensures Applied(c, letters, adding, args, toInt).channel.modes != c.modes <==>
              ChangesFlags(c, letters, adding, args, toInt)
  {
    hide Applied, Has, OneBit, Asking, Distinct, ChannelMode, Heard;
    var p := Applied(c, letters, adding, args, toInt);
    if n :| 0 <= n < |letters| && Switches(letters, n, adding, args, toInt)
            && Has(c.modes, ChannelMode(letters[n]).value) != adding {
      ModesAreBits(letters[n]);
      FlagsAfterLine(c, letters, adding, args, toInt, ChannelMode(letters[n]).value);
    }
    LineIsFaithful(c, letters, adding, args, toInt);
    if p.result == "" {
      HeardNothing(c.modes, adding);
    } else {
      FlagsAfterLine(c, letters, adding, args, toInt, ChannelMode(p.result[0]).value);
    }
  }

  lemma HeardNothing(bits: Bits, adding: bool)
    ensures Heard(bits, adding, "", ChannelMode) == bits
  {
  }

  // A client that knew the flags knows them after its line exactly if the line has known
  // letters and enough arguments, or changes no flag.
  lemma ReplyTellsTheFlags(
      c: ChannelState, letters: string, adding: bool, args: seq<string>, toInt: string -> Option<int>)
    requires |args| >= 2
    ensures var p := Applied(c, letters, adding, args, toInt);
            (HeardFrom(c.modes, ChannelReply(p, adding)) == p.channel.modes <==>
              || (KnownLetters(letters) && 2 + Asking(letters) <= |args|)
              || !ChangesFlags(c, letters, adding, args, toInt))
  {
    hide Applied, Asking, KnownLetters, Has, OneBit, Settled, Distinct, ChangesFlags, ChannelMode, Heard;
    LineIsFaithful(c, letters, adding, args, toInt);
    ArgumentsInOrder(c, letters, adding, args, toInt);
    FlagsChangeExactly(c, letters, adding, args, toInt);
    HeardNothing(c.modes, adding);
  }

  // ----- Over all runs of MODE lines

  datatype ModeLine = ModeLine(adding: bool, letters: string, args: seq<string>)

  function AfterLines(lines: seq<ModeLine>, toInt: string -> Option<int>): ChannelState {
    if lines == [] then NewChannel()
    else
      var l := lines[|lines| - 1];
      Applied(AfterLines(lines[..|lines| - 1], toInt), l.letters, l.adding, l.args, toInt).channel
  }

  ghost predicate Coherent(c: ChannelState) {
    && !Has(c.modes, BAN)
    && (!Has(c.modes, KEY) ==> c.key == "")
    && (!Has(c.modes, LIMIT) ==> c.limit == 0)
    && c.limit >= 0 && "" !in c.bans
  }

  lemma ModeConstants()
    ensures OneBit(BAN) && OneBit(KEY) && OneBit(LIMIT) && BAN != KEY && BAN != LIMIT && KEY != LIMIT
  {
  }

  lemma WithModeIsCoherent(c: ChannelState, mode: Bits, adding: bool, arg: string, toInt: string -> Option<int>)
    requires Coherent(c) && OneBit(mode)
    ensures Coherent(WithMode(c, mode, adding, arg, toInt))
  {
    ModeConstants();
    hide Has, Set, Clear, OneBit;
    forall e | e == BAN || e == KEY || e == LIMIT
      ensures Has(Set(c.modes, mode), e) <==> mode == e || Has(c.modes, e)
      ensures Has(Clear(c.modes, mode), e) <==> mode != e && Has(c.modes, e)
    {
      SetHas(c.modes, mode, e);
      ClearHas(c.modes, mode, e);
    }
  }

  lemma {:induction false} LineIsCoherent(
      c: ChannelState, letters: string, adding: bool, args: seq<string>, toInt: string -> Option<int>)
    requires Coherent(c)
    ensures Coherent(Applied(c, letters, adding, args, toInt).channel)
  {
    hide WithMode, Has, OneBit, Coherent;
    if letters != "" {
      var n := |letters| - 1;
      LineIsCoherent(c, letters[..n], adding, args, toInt);
      ModesAreBits(letters[n]);
      var p := Applied(c, letters[..n], adding, args, toInt);
      if ChannelMode(letters[n]).Some? && !(TakesArg(ChannelMode(letters[n]).value) && p.argIndex >= |args|) {
        var mode := ChannelMode(letters[n]).value;
        WithModeIsCoherent(p.channel, mode, adding, if TakesArg(mode) then args[p.argIndex] else "", toInt);
      }
    }
  }

  // Whatever MODE lines a channel has seen: BAN is never set, without KEY there is no
  // key, and without LIMIT the limit is 0.
  lemma {:induction false} EveryRunIsCoherent(lines: seq<ModeLine>, toInt: string -> Option<int>)
    ensures Coherent(AfterLines(lines, toInt))
  {
    hide Applied;
    if lines != [] {
      EveryRunIsCoherent(lines[..|lines| - 1], toInt);
      var l := lines[|lines| - 1];
      LineIsCoherent(AfterLines(lines[..|lines| - 1], toInt), l.letters, l.adding, l.args, toInt);
    }
  }

  // ----- User MODE lines

  datatype UserProgress = UserProgress(modes: Bits, invalid: bool, result: string)

  function OneUserLetter(p: UserProgress, letter: char, adding: bool): UserProgress {
    match UserMode(letter)
    case None => p.(invalid := true)
    case Some(mode) =>
      var after := Switch(p.modes, mode, adding);
      UserProgress(after, p.invalid, if Has(p.modes, mode) != Has(after, mode) then p.result + [letter] else p.result)
  }

  function UserApplied(modes: Bits, letters: string, adding: bool): UserProgress {
    if letters == "" then UserProgress(modes, false, "")
    else OneUserLetter(UserApplied(modes, letters[..|letters| - 1], adding), letters[|letters| - 1], adding)
  }

  // Unlike for channels, a line that changes nothing is answered 501.
  function UserReply(p: UserProgress, adding: bool): Reply {
    if p.invalid || p.result == "" then UnknownModeFlag else Announce(adding, p.result)
  }

  method HandleUserMode(user_modes: Bits, requested: string) returns (modes: Bits, reply: Reply)
    requires requested != "" && (requested[0] == '+' || requested[0] == '-')
    ensures var p := UserApplied(user_modes, requested[1..], requested[0] == '+');
            modes == p.modes && reply == UserReply(p, requested[0] == '+')
  {
    hide Has, Switch, UserMode;
    var adding := requested[0] == '+';
    var invalid, result := false, "";
    modes := user_modes;
    ghost var letters := requested[1..];
    for i := 1 to |requested|
      invariant UserProgress(modes, invalid, result) == UserApplied(user_modes, letters[..i - 1], adding)
    {
      assert letters[..i][..i - 1] == letters[..i - 1] && letters[i - 1] == requested[i];
      var letter := requested[i];
      if UserMode(letter) == None {
        invalid := true;
        continue;
      }
      var mode := UserMode(letter).value;
      var before := Has(modes, mode);
      modes := Switch(modes, mode, adding);
      if before != Has(modes, mode) {
        result := result + [letter];
      }
    }
    assert letters[..|requested| - 1] == letters;
    reply := if invalid then UnknownModeFlag else if result != "" then Announce(adding, result) else UnknownModeFlag;
  }

  lemma {:induction false} UserLineIsFaithful(modes: Bits, letters: string, adding: bool)
    ensures var p := UserApplied(modes, letters, adding); Faithful(modes, p.modes, adding, p.result, UserMode)
  {
    hide Has, OneBit, Switch, Faithful;
    if letters == "" {
      NothingAnnounced(modes, adding, UserMode);
    } else {
      var n := |letters| - 1;
      UserLineIsFaithful(modes, letters[..n], adding);
      ModesAreBits(letters[n]);
      var p := UserApplied(modes, letters[..n], adding);
      if UserMode(letters[n]).Some? {
        var mode := UserMode(letters[n]).value;
        SwitchLaws(p.modes, mode, adding);
        if Has(p.modes, mode) != adding {
          AnnounceOneFaithfully(modes, p.modes, adding, p.result, letters[n], UserMode);
        }
      }
    }
  }

  lemma AnnounceOneFaithfully(
      was: Bits, bits: Bits, adding: bool, letters: string, letter: char, lookup: char -> Option<Bits>)
    requires Faithful(was, bits, adding, letters, lookup)
    requires lookup(letter).Some? && OneBit(lookup(letter).value) && Has(bits, lookup(letter).value) != adding
    ensures Faithful(was, Switch(bits, lookup(letter).value, adding), adding, letters + [letter], lookup)
  {
    AnnounceOne(was, bits, adding, letters, letter, lookup);
  }

  lemma {:induction false} UserInvalidExactly(modes: Bits, letters: string, adding: bool)
    ensures UserApplied(modes, letters, adding).invalid <==>
              exists i :: 0 <= i < |letters| && UserMode(letters[i]) == None
  {
    hide UserMode, Switch, Has;
    if letters != "" {
      var front := letters[..|letters| - 1];
      UserInvalidExactly(modes, front, adding);
      assert forall i :: 0 <= i < |front| ==> front[i] == letters[i];
    }
  }

  // A user hears 501 exactly if a letter is unknown or no mode changed, and otherwise the
  // change: its copy of the modes is right unless an unknown letter hid a change.
  lemma UserReplyTells(modes: Bits, letters: string, adding: bool)
    ensures var p := UserApplied(modes, letters, adding);
            var unknown := exists i :: 0 <= i < |letters| && UserMode(letters[i]) == None;
            && (UserReply(p, adding) == UnknownModeFlag <==> unknown || p.modes == modes)
            && (!unknown && p.modes != modes ==>
                 && UserReply(p, adding).Announce? && UserReply(p, adding).adding == adding
                 && Heard(modes, adding, UserReply(p, adding).letters, UserMode) == p.modes)
  {
    hide UserApplied, UserMode, Has, OneBit;
    var p := UserApplied(modes, letters, adding);
    UserInvalidExactly(modes, letters, adding);
    UserLineIsFaithful(modes, letters, adding);
    if p.result != "" {
      assert SwitchedTo(modes, p.modes, adding, UserMode(p.result[0]));
    }
  }

  lemma UserLettersDiffer(letter: char)
    requires UserMode(letter).Some?
    ensures forall other :: other != letter && UserMode(other).Some? ==> UserMode(other).value != UserMode(letter).value
  {
  }

  lemma UserLineIsADelta(modes: Bits, letters: string, adding: bool, letter: char)
    requires UserMode(letter).Some?
    ensures var p := UserApplied(modes, letters, adding);
            && Heard(modes, adding, p.result, UserMode) == p.modes && Distinct(p.result)
            && (letter in p.result <==> Has(modes, UserMode(letter).value) != Has(p.modes, UserMode(letter).value))
  {
    hide UserApplied, Has, OneBit, Heard, Settled, Distinct;
    UserLineIsFaithful(modes, letters, adding);
    ModesAreBits(letter);
    UserLettersDiffer(letter);
    var p := UserApplied(modes, letters, adding);
    FaithfulIsExact(modes, p.modes, adding, p.result, UserMode, letter);
  }
}
