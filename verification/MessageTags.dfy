// IRCv3 message tags: the printer and the parser of irc/utils.cpp, and when one
// undoes the other.
module MessageTags {
  import opened ByteStrings
  import opened Options
  import BitFlags

  const MESSAGE_TAGS: BitFlags.Bits := 0x02
  const ACCOUNT_TAG: BitFlags.Bits := 0x10
  // '@', at most 4094 bytes of tag data, and the space.
  const MAX_PREFIX: nat := 4096

  // A tag value as the parser stores it: QVariant() when empty.
  type TagMap = map<string, Option<string>>

  datatype Tag = Tag(key: string, value: string)

  // ----- Escaping

  function EscapeChar(c: char, last: bool): string {
    if c == ';' then "\\:"
    else if c == ' ' then "\\s"
    else if c == '\\' then (if last then "" else "\\\\")
    else if c == '\r' then "\\r"
    else if c == '\n' then "\\n"
    else [c]
  }

  function Escape(v: string): string {
    if v == "" then "" else EscapeChar(v[0], |v| == 1) + Escape(v[1..])
  }

  function UnescapeChar(c: char): char {
    if c == ':' then ';'
    else if c == 's' then ' '
    else if c == 'r' then '\r'
    else if c == 'n' then '\n'
    else c
  }

  function Unescape(v: string): string {
    if v == "" then ""
    else if v[0] == '\\' && |v| > 1 then [UnescapeChar(v[1])] + Unescape(v[2..])
    else if v[0] == '\\' then Unescape(v[1..])
    else [v[0]] + Unescape(v[1..])
  }

  // A value without its final backslash, if it has one.
  function Kept(v: string): string {
    if v != "" && v[|v| - 1] == '\\' then v[..|v| - 1] else v
  }

  // Reading one escaped character gives it back and goes on behind it.
  lemma UnescapeOne(c: char, last: bool, rest: string)
    requires c == '\\' ==> !last
    ensures Unescape(EscapeChar(c, last) + rest) == [c] + Unescape(rest)
  {
    var e := EscapeChar(c, last);
    assert (e + rest)[|e|..] == rest;
  }

  // Escaping loses exactly a final backslash.
  lemma {:induction false} UnescapeEscape(v: string)
    ensures Unescape(Escape(v)) == Kept(v)
  {
    hide EscapeChar, Unescape;
    UnescapeEmpty();
    if v != "" {
      var c, last := v[0], |v| == 1;
      UnescapeEscape(v[1..]);
      if last && c == '\\' {
        assert EscapeChar(c, last) + Escape(v[1..]) == "" by { FinalBackslash(v); }
      } else {
        UnescapeOne(c, last, Escape(v[1..]));
        assert Kept(v) == [c] + Kept(v[1..]);
      }
    }
  }

  lemma FinalBackslash(v: string)
    requires v == "\\"
    ensures EscapeChar(v[0], true) + Escape(v[1..]) == ""
  {
  }

  lemma UnescapeEmpty()
    ensures Unescape("") == ""
  {
  }

  lemma {:induction false} EscapedIsClean(v: string, c: char)
    requires c == ';' || c == ' ' || c == '\r' || c == '\n'
    ensures c !in Escape(v)
  {
    if v != "" {
      EscapedIsClean(v[1..], c);
    }
  }

  // ----- Printing

  function TagText(t: Tag): string {
    if t.value == "" then t.key else t.key + "=" + Escape(t.value)
  }

  function Texts(tags: seq<Tag>): (r: seq<string>)
    ensures |r| == |tags|
  {
    seq(|tags|, i requires 0 <= i < |tags| => TagText(tags[i]))
  }

  // The tags that go out: the sender's account name first, then the message's own.
  function Outgoing(tags: seq<Tag>, account: Option<string>, caps: BitFlags.Bits): seq<Tag> {
    if BitFlags.Has(caps, ACCOUNT_TAG) && account.Some? && account.value != ""
    then [Tag("account", account.value)] + tags
    else tags
  }

  function Prefix(tags: seq<Tag>): string {
    "@" + Join(Texts(tags), ';') + " "
  }

  function Build(tags: seq<Tag>, account: Option<string>, caps: BitFlags.Bits): (r: string)
    ensures |r| <= MAX_PREFIX
  {
    var out := Outgoing(tags, account, caps);
    if !BitFlags.Has(caps, MESSAGE_TAGS) || out == [] then ""
    else
      var p := Prefix(out);
      if |p| > MAX_PREFIX then p[..MAX_PREFIX] else p
  }

  // ----- Parsing

  function Parsed(raw: string): Tag {
    var eq := IndexOf(raw, '=');
    if eq < 0 then Tag(raw, "") else Tag(raw[..eq], raw[eq + 1..])
  }

  function Meaning(text: string): Option<string> {
    if text == "" then None else Some(text)
  }

  // The tags of a `;`-separated list added one by one: a later one wins.
  function Added(raws: seq<string>, m: TagMap): TagMap {
    if raws == [] then m
    else
      var n := |raws| - 1;
      var before := Added(raws[..n], m);
      if raws[n] == "" then before
      else
        var t := Parsed(raws[n]);
        before[t.key := Meaning(Unescape(t.value))]
  }

  datatype TagBlock = TagBlock(tags: TagMap, end: int)

  function Parse(line: string): TagBlock {
    if line == "" || line[0] != '@' then TagBlock(map[], -1)
    else
      var sp := IndexOf(line, ' ');
      if sp < 0 then TagBlock(map[], -1)
      else TagBlock(Added(Split(line[1..sp], ';'), map[]), sp)
  }

  // ----- Round trip

  predicate LegalKey(k: string) {
    k != "" && '=' !in k && ';' !in k && ' ' !in k
  }

  predicate LegalKeys(tags: seq<Tag>) {
    forall i :: 0 <= i < |tags| ==> LegalKey(tags[i].key)
  }

  // What a list of tags means: each key with its kept value, the last one winning.
  function Intended(tags: seq<Tag>): TagMap {
    if tags == [] then map[]
    else
      var n := |tags| - 1;
      Intended(tags[..n])[tags[n].key := Meaning(Kept(tags[n].value))]
  }

  lemma TagTextIsClean(t: Tag, c: char)
    requires LegalKey(t.key) && (c == ';' || c == ' ')
    ensures c !in TagText(t) && TagText(t) != ""
  {
    EscapedIsClean(t.value, c);
  }

  lemma ParsedTagText(t: Tag)
    requires LegalKey(t.key)
    ensures var p := Parsed(TagText(t)); p.key == t.key && Unescape(p.value) == Kept(t.value)
  {
    var s := TagText(t);
    UnescapeEscape(t.value);
    if t.value != "" {
      var k := |t.key|;
      assert s[..k] == t.key && s[k] == '=' && s[k + 1..] == Escape(t.value);
      IndexOfUnique(s, '=', k);
    }
  }

  lemma {:induction false} AddedTexts(tags: seq<Tag>)
    requires LegalKeys(tags)
    ensures Added(Texts(tags), map[]) == Intended(tags)
  {
    if tags != [] {
      var n := |tags| - 1;
      AddedTexts(tags[..n]);
      assert Texts(tags)[..n] == Texts(tags[..n]);
      TagTextIsClean(tags[n], ';');
      ParsedTagText(tags[n]);
    }
  }

  lemma TextsAreClean(tags: seq<Tag>, c: char)
    requires LegalKeys(tags) && (c == ';' || c == ' ')
    ensures NoneContains(Texts(tags), c)
  {
    forall k | 0 <= k < |tags| ensures c !in Texts(tags)[k] {
      TagTextIsClean(tags[k], c);
    }
  }

  lemma ParsePrefix(tags: seq<Tag>, rest: string)
    requires tags != [] && LegalKeys(tags)
    ensures Parse(Prefix(tags) + rest) == TagBlock(Intended(tags), |Prefix(tags)| - 1)
  {
    hide Join, Split, Texts, Added;
    var body := Join(Texts(tags), ';');
    var line := Prefix(tags) + rest;
    TextsAreClean(tags, ';');
    TextsAreClean(tags, ' ');
    JoinLacks(Texts(tags), ';', ' ');
    var sp := |body| + 1;
    assert line[..sp] == "@" + body && line[sp] == ' ' && line[1..sp] == body;
    IndexOfUnique(line, ' ', sp);
    SplitJoin(Texts(tags), ';');
    AddedTexts(tags);
  }

  // ----- What the parser finds in any text

  // An escape stands for its character, an unknown one for the character behind the
  // backslash, and a backslash at the end for nothing.
  lemma UnescapeByCases(c: char, rest: string)
    ensures Unescape("\\:" + rest) == ";" + Unescape(rest) && Unescape("\\s" + rest) == " " + Unescape(rest)
    ensures Unescape("\\r" + rest) == "\r" + Unescape(rest) && Unescape("\\n" + rest) == "\n" + Unescape(rest)
    ensures c !in ":srn" ==> Unescape("\\" + [c] + rest) == [c] + Unescape(rest)
    ensures c != '\\' ==> Unescape([c] + rest) == [c] + Unescape(rest)
    ensures Unescape("\\") == "" == Unescape("")
  {
    BackslashOne(':', rest);
    BackslashOne('s', rest);
    BackslashOne('r', rest);
    BackslashOne('n', rest);
    BackslashOne(c, rest);
    assert ([c] + rest)[1..] == rest;
    assert "\\:" == "\\" + [':'] && "\\s" == "\\" + ['s'] && "\\r" == "\\" + ['r'] && "\\n" == "\\" + ['n'];
  }

  lemma BackslashOne(c: char, rest: string)
    ensures Unescape("\\" + [c] + rest) == [UnescapeChar(c)] + Unescape(rest)
  {
    hide UnescapeChar;
    var s := "\\" + [c] + rest;
    assert s[0] == '\\' && s[1] == c && s[2..] == rest;
  }

  // A piece of the tag list that names `key`: everything in front of the first '='.
  predicate NamesKey(raw: string, key: string) {
    raw != "" && '=' !in key && (raw == key || (|raw| > |key| && raw[..|key|] == key && raw[|key|] == '='))
  }

  // The text behind the '=' of such a piece.
  function RawValue(raw: string, key: string): string
    requires NamesKey(raw, key)
  {
    if raw == key then "" else raw[|key| + 1..]
  }

  lemma NamesItsKey(raw: string, key: string)
    requires raw != ""
    ensures NamesKey(raw, key) <==> Parsed(raw).key == key
    ensures NamesKey(raw, key) ==> RawValue(raw, key) == Parsed(raw).value
  {
    var eq := IndexOf(raw, '=');
    if eq >= 0 && NamesKey(raw, key) {
      if raw != key {
        IndexOfUnique(raw, '=', |key|);
      }
    }
  }

  // What a list of pieces says of one key: the last piece that names it counts, with its
  // text unescaped, and null where that is empty. Empty pieces name nothing.
  datatype Finding = Absent | Null | Text(text: string)

  function Found(raws: seq<string>, key: string): Finding {
    if raws == [] then Absent
    else
      var n := |raws| - 1;
      if !NamesKey(raws[n], key) then Found(raws[..n], key)
      else if Unescape(RawValue(raws[n], key)) == "" then Null
      else Text(Unescape(RawValue(raws[n], key)))
  }

  ghost predicate Agrees(tags: TagMap, key: string, f: Finding) {
    match f
    case Absent => key !in tags
    case Null => key in tags && tags[key] == None
    case Text(text) => key in tags && tags[key] == Some(text)
  }

  // The parser's table holds for every key what the pieces say of it.
  lemma {:induction false} TagsOfPieces(raws: seq<string>, key: string)
    ensures Agrees(Added(raws, map[]), key, Found(raws, key))
  {
    hide Unescape, NamesKey, RawValue, Parsed;
    if raws != [] {
      var n := |raws| - 1;
      TagsOfPieces(raws[..n], key);
      NamesNothing(key);
      if raws[n] != "" {
        NamesItsKey(raws[n], key);
      }
    }
  }

  lemma NamesNothing(key: string)
    ensures !NamesKey("", key)
  {
  }

  // A line is read as the pieces between '@' and its first space.
  lemma ParsePieces(raws: seq<string>, rest: string)
    requires raws != [] && NoneContains(raws, ';') && NoneContains(raws, ' ')
    ensures Parse("@" + Join(raws, ';') + " " + rest) == TagBlock(Added(raws, map[]), |Join(raws, ';')| + 1)
  {
    hide Join, Split, Added;
    var body := Join(raws, ';');
    var line := "@" + body + " " + rest;
    JoinLacks(raws, ';', ' ');
    var sp := |body| + 1;
    assert line[..sp] == "@" + body && line[sp] == ' ' && line[1..sp] == body;
    IndexOfUnique(line, ' ', sp);
    SplitJoin(raws, ';');
  }

  // Who sees the account tag: a client with both capabilities, if the sender has a name.
  // It comes first, so that a tag of the message with the same key wins.
  lemma AccountTagIsRead(tags: seq<Tag>, account: Option<string>, caps: BitFlags.Bits)
    requires LegalKeys(tags) && BitFlags.Has(caps, MESSAGE_TAGS) && Outgoing(tags, account, caps) != []
    requires |Prefix(Outgoing(tags, account, caps))| <= MAX_PREFIX
    requires forall i :: 0 <= i < |tags| ==> tags[i].key != "account"
    ensures HasAccountTag(Parse(Build(tags, account, caps)).tags, tags, account, BitFlags.Has(caps, ACCOUNT_TAG))
  {
    hide BitFlags.Has, Prefix, Parse, Intended, HasAccountTag;
    var out := Outgoing(tags, account, caps);
    ParsePrefix(out, "");
    assert Prefix(out) + "" == Prefix(out);
    AccountIsIntended(tags, account, caps);
  }

  ghost predicate HasAccountTag(found: TagMap, tags: seq<Tag>, account: Option<string>, asked: bool) {
    && ("account" in found <==> asked && account.Some? && account.value != "")
    && ("account" in found ==>
         found["account"] == if account.value == "\\" then None else Some(Kept(account.value)))
    && found - {"account"} == Intended(tags)
  }

  lemma AccountIsIntended(tags: seq<Tag>, account: Option<string>, caps: BitFlags.Bits)
    requires forall i :: 0 <= i < |tags| ==> tags[i].key != "account"
    ensures HasAccountTag(Intended(Outgoing(tags, account, caps)), tags, account, BitFlags.Has(caps, ACCOUNT_TAG))
  {
    hide BitFlags.Has, Intended;
    IntendedLacks(tags, "account");
    if Outgoing(tags, account, caps) != tags {
      IntendedFirst(Tag("account", account.value), tags);
      assert Kept(account.value) == "" <==> account.value == "\\";
    }
  }

  lemma {:induction false} IntendedLacks(tags: seq<Tag>, key: string)
    requires forall i :: 0 <= i < |tags| ==> tags[i].key != key
    ensures key !in Intended(tags)
  {
    if tags != [] {
      IntendedLacks(tags[..|tags| - 1], key);
    }
  }

  lemma {:induction false} IntendedFirst(first: Tag, tags: seq<Tag>)
    requires forall i :: 0 <= i < |tags| ==> tags[i].key != first.key
    ensures Intended([first] + tags) == Intended(tags)[first.key := Meaning(Kept(first.value))]
  {
    hide Meaning, Kept;
    if tags == [] {
      assert [first] + tags == [first] && [first][..0] == [];
    } else {
      var n := |tags| - 1;
      IntendedFirst(first, tags[..n]);
      assert ([first] + tags)[..n + 1] == [first] + tags[..n];
    }
  }

  // A prefix that had to be cut has lost its closing space: no tag is found in it.
  lemma CutPrefixHasNoTags(tags: seq<Tag>)
    requires tags != [] && LegalKeys(tags) && |Prefix(tags)| > MAX_PREFIX
    ensures Parse(Prefix(tags)[..MAX_PREFIX]) == TagBlock(map[], -1)
  {
    hide Join, Texts;
    var body := Join(Texts(tags), ';');
    TextsAreClean(tags, ' ');
    JoinLacks(Texts(tags), ';', ' ');
    var cut := Prefix(tags)[..MAX_PREFIX];
    assert cut == ("@" + body)[..MAX_PREFIX];
    assert ' ' !in cut;
  }

  lemma EscapeCharSize(c: char, last: bool)
    ensures !last ==> |EscapeChar(c, last)| >= 1
  {
  }

  // Escaping drops at most a final backslash.
  lemma {:induction false} EscapeKeepsLength(v: string)
    ensures |Escape(v)| + 1 >= |v|
  {
    hide EscapeChar;
    if v != "" {
      EscapeCharSize(v[0], |v| == 1);
      EscapeKeepsLength(v[1..]);
    }
  }

  // Such prefixes occur: one tag with a long value is enough.
  lemma LongValueIsCut(key: string, value: string)
    requires LegalKey(key) && |value| >= MAX_PREFIX - 2
    ensures var tags := [Tag(key, value)];
            && LegalKeys(tags) && |Prefix(tags)| > MAX_PREFIX
            && Parse(Prefix(tags)[..MAX_PREFIX]) == TagBlock(map[], -1)
  {
    hide Escape, Parse;
    EscapeKeepsLength(value);
    CutPrefixHasNoTags([Tag(key, value)]);
  }

  // Parsing undoes printing, whatever line follows, exactly when the printed tags fit.
  lemma BuildParse(tags: seq<Tag>, account: Option<string>, caps: BitFlags.Bits)
    requires BitFlags.Has(caps, MESSAGE_TAGS)
    requires LegalKeys(tags) && Outgoing(tags, account, caps) != []
    ensures var out := Outgoing(tags, account, caps);
            var built := Build(tags, account, caps);
            && (|Prefix(out)| <= MAX_PREFIX <==> Parse(built) == TagBlock(Intended(out), |built| - 1))
            && (|Prefix(out)| > MAX_PREFIX <==> Parse(built) == TagBlock(map[], -1))
            && (|Prefix(out)| <= MAX_PREFIX ==>
                 forall rest :: Parse(built + rest) == TagBlock(Intended(out), |built| - 1))
  {
    hide BitFlags.Has, Prefix, Parse;
    var out := Outgoing(tags, account, caps);
    assert LegalKeys(out);
    var built := Build(tags, account, caps);
    if |Prefix(out)| <= MAX_PREFIX {
      forall rest ensures Parse(built + rest) == TagBlock(Intended(out), |built| - 1) {
        ParsePrefix(out, rest);
      }
      assert built + "" == built;
      assert |built| >= 2 by { PrefixSize(out); }
    } else {
      CutPrefixHasNoTags(out);
    }
  }

  // Nothing is printed for a client without the capability, or without tags to send.
  lemma NothingToPrint(tags: seq<Tag>, account: Option<string>, caps: BitFlags.Bits)
    requires LegalKeys(tags)
    ensures Build(tags, account, caps) == "" <==>
              || !BitFlags.Has(caps, MESSAGE_TAGS)
              || (tags == [] && !(BitFlags.Has(caps, ACCOUNT_TAG) && account.Some? && account.value != ""))
  {
    hide BitFlags.Has, Prefix;
    PrefixSize(Outgoing(tags, account, caps));
  }

  lemma PrefixSize(tags: seq<Tag>)
    ensures |Prefix(tags)| >= 2
  {
  }

  // ----- The loops of the source

  // The switch on one character.
  method AppendEscaped(escaped: string, c: char, last: bool) returns (r: string)
    ensures r == escaped + EscapeChar(c, last)
  {
    r := escaped;
    match c {
      case ';' => r := r + "\\:";
      case ' ' => r := r + "\\s";
      case '\\' =>
        if !last {
          r := r + "\\\\";
        }
      case '\r' => r := r + "\\r";
      case '\n' => r := r + "\\n";
      case _ => r := r + [c];
    }
  }

  method EscapeTagValue(value: string) returns (escaped: string)
    ensures escaped == Escape(value)
  {
    hide EscapeChar;
    escaped := "";
    for i := 0 to |value|
      invariant escaped + Escape(value[i..]) == Escape(value)
    {
      ghost var rest, before := value[i..], escaped;
      assert rest[1..] == value[i + 1..];
      escaped := AppendEscaped(escaped, value[i], i == |value| - 1);
      assert escaped + Escape(rest[1..]) == before + Escape(rest);
    }
  }

  method BuildMessageTags(tags: seq<Tag>, account: Option<string>, caps: BitFlags.Bits) returns (prefix: string)
    ensures prefix == Build(tags, account, caps)
  {
    hide Escape, Join, BitFlags.Has;
    if !BitFlags.Has(caps, MESSAGE_TAGS) {
      return "";
    }
    var list: seq<string> := [];
    if BitFlags.Has(caps, ACCOUNT_TAG) && account.Some? {
      if account.value != "" {
        var name := EscapeTagValue(account.value);
        list := list + ["account=" + name];
        assert "account" + "=" + name == "account=" + name;
        assert list == Texts([Tag("account", account.value)]);
      }
    }
    ghost var out := Outgoing(tags, account, caps);
    ghost var k := |out| - |tags|;
    assert out[..k] == if k == 0 then [] else [Tag("account", account.value)];
    for i := 0 to |tags|
      invariant list == Texts(out[..k + i])
    {
      var t := tags[i];
      assert out[..k + i + 1] == out[..k + i] + [t];
      if t.value == "" {
        list := list + [t.key];
      } else {
        var v := EscapeTagValue(t.value);
        list := list + [t.key + "=" + v];
      }
    }
    assert out[..|out|] == out;
    if list == [] {
      return "";
    }
    prefix := "@" + Join(list, ';') + " ";
    if |prefix| > MAX_PREFIX {
      prefix := prefix[..MAX_PREFIX];
    }
  }

  method UnescapeTagValue(value: string) returns (unescaped: string)
    ensures unescaped == Unescape(value)
  {
    unescaped := "";
    var i := 0;
    while i < |value|
      invariant i <= |value| && unescaped + Unescape(value[i..]) == Unescape(value)
    {
      ghost var rest := value[i..];
      assert rest[1..] == value[i + 1..];
      if value[i] == '\\' && i + 1 < |value| {
        assert rest[2..] == value[i + 2..];
        unescaped := unescaped + [UnescapeChar(value[i + 1])];
        i := i + 1;
      } else if value[i] == '\\' {
      } else {
        unescaped := unescaped + [value[i]];
      }
      i := i + 1;
    }
  }

  method ParseMessageTags(line: string) returns (tags: TagMap, tagsEndPos: int)
    ensures TagBlock(tags, tagsEndPos) == Parse(line)
  {
    hide Split, Unescape, IndexOf;
    tags := map[];
    tagsEndPos := -1;
    if line == "" || line[0] != '@' {
      return;
    }
    var spaceIdx := IndexOf(line, ' ');
    if spaceIdx == -1 {
      return;
    }
    tagsEndPos := spaceIdx;
    var tagList := Split(line[1..spaceIdx], ';');
    for i := 0 to |tagList|
      invariant tags == Added(tagList[..i], map[])
    {
      assert tagList[..i + 1][..i] == tagList[..i];
      var rawTag := tagList[i];
      if rawTag == "" {
        continue;
      }
      var eqIdx := IndexOf(rawTag, '=');
      var key, value := rawTag, "";
      if eqIdx != -1 {
        key, value := rawTag[..eqIdx], rawTag[eqIdx + 1..];
      }
      var unescaped := UnescapeTagValue(value);
      if unescaped == "" {
        tags := tags[key := None];
      } else {
        tags := tags[key := Some(unescaped)];
      }
    }
    assert tagList[..|tagList|] == tagList;
  }
}
