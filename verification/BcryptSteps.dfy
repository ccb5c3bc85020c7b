// The steps that bcrypt.cpp announces in its opening comment, as chains of states: the
// key and the salt schedules in turn, and the text encrypted 64 times in ECB mode.
module BcryptSteps {
  import opened Words
  import opened Feistel
  import opened KeySchedule
  import opened BlockModes
  import opened BcryptBase64
  import opened BcryptHash
  import opened Residues

  // rounds = 1 << logr
  function Rounds(logr: nat): nat
    requires logr <= 31
  {
    ((1 as word) << (logr as bv6)) as nat
  }

  // The tables of step 3: the schedule of the password with the salt, and then by turns
  // one of the password and one of the salt.
  ghost predicate AreKeyings(
    init: Tables, key: seq<byte>, keybytes: nat, csalt: seq<byte>, rounds: nat, ts: seq<Tables>)
    requires Readable(key, keybytes) && |csalt| == MAXSALT
  {
    && |ts| == 2 * rounds + 1 && ts[0] == Expand(init, csalt, MAXSALT, key, keybytes)
    && (forall i :: 0 <= i < rounds ==> ts[2 * i + 1] == Expand0(ts[2 * i], key, keybytes))
    && (forall i :: 0 <= i < rounds ==> ts[2 * i + 2] == Expand0(ts[2 * i + 1], csalt, MAXSALT))
  }

  // The texts of step 5.
  ghost predicate AreTexts(t: Tables, cs: seq<seq<byte>>) {
    && |cs| == 65 && cs[0] == TEXT
    && (forall i :: 0 <= i <= 64 ==> |cs[i]| == 24)
    && (forall i :: 0 <= i < 64 ==> cs[i + 1] == Ecb(Enciphering(t), cs[i]))
  }

  lemma {:induction false} KeyingsUpTo(
      init: Tables, key: seq<byte>, keybytes: nat, csalt: seq<byte>, rounds: nat) returns (ts: seq<Tables>)
    requires Readable(key, keybytes) && |csalt| == MAXSALT
    ensures AreKeyings(init, key, keybytes, csalt, rounds, ts)
    ensures ts[2 * rounds] == Rekeyed(Expand(init, csalt, MAXSALT, key, keybytes), key, keybytes, csalt, rounds)
  {
    hide Expand, Expand0;
    if rounds == 0 {
      ts := [Expand(init, csalt, MAXSALT, key, keybytes)];
    } else {
      var us := KeyingsUpTo(init, key, keybytes, csalt, rounds - 1);
      var t := Expand0(us[2 * rounds - 2], key, keybytes);
      ts := us + [t, Expand0(t, csalt, MAXSALT)];
    }
  }

  lemma StretchTrace(init: Tables, key: seq<byte>, keybytes: nat, csalt: seq<byte>, logr: nat)
    returns (ts: seq<Tables>)
    requires Readable(key, keybytes) && |csalt| == MAXSALT && logr <= 31
    ensures AreKeyings(init, key, keybytes, csalt, Rounds(logr), ts)
    ensures ts[2 * Rounds(logr)] == Stretched(init, key, keybytes, csalt, logr)
  {
    hide AreKeyings, Rounds, Power2, Rekeyed;
    RoundsArePowers(logr);
    ts := KeyingsUpTo(init, key, keybytes, csalt, Rounds(logr));
  }

  lemma {:induction false} RoundsArePowers(logr: nat)
    requires logr <= 31
    ensures Rounds(logr) == Power2(logr)
  {
    hide Rounds;
    if logr == 0 {
      OneRound();
    } else {
      RoundsArePowers(logr - 1);
      if logr <= 10 {
        RoundsDouble(logr);
      } else if logr <= 20 {
        MoreRoundsDouble(logr);
      } else if logr <= 26 {
        ManyRoundsDouble(logr);
      } else {
        MostRoundsDouble(logr);
      }
    }
  }

  lemma OneRound()
    ensures Rounds(0) == 1
  {
  }

  lemma RoundsDouble(logr: nat)
    requires 0 < logr <= 10
    ensures Rounds(logr) == 2 * Rounds(logr - 1)
  {
  }

  lemma MoreRoundsDouble(logr: nat)
    requires 10 < logr <= 20
    ensures Rounds(logr) == 2 * Rounds(logr - 1)
  {
  }

  lemma ManyRoundsDouble(logr: nat)
    requires 20 < logr <= 26
    ensures Rounds(logr) == 2 * Rounds(logr - 1)
  {
  }

  lemma MostRoundsDouble(logr: nat)
    requires 26 < logr <= 31
    ensures Rounds(logr) == 2 * Rounds(logr - 1)
  {
  }

  // ----- Word blocks are ECB on their bytes

  lemma TwoWordsMore(w: seq<word>)
    requires |w| >= 2
    ensures BytesOfWords(w) == BytesOfWords(w[..|w| - 2]) + BytesOf(Block(w[|w| - 2], w[|w| - 1]))
  {
    hide BytesOfWord;
    var front := w[..|w| - 1];
    assert front[..|w| - 2] == w[..|w| - 2];
    assert BytesOfWords(front) == BytesOfWords(w[..|w| - 2]) + BytesOfWord(w[|w| - 2]);
  }

  lemma OneBlockMore(g: Block -> Block, w: seq<word>, n: nat)
    requires |w| == 2 * n && n > 0
    ensures var y := g(Block(w[2 * n - 2], w[2 * n - 1]));
            WordBlocks(g, w, n) == WordBlocks(g, w[..2 * n - 2], n - 1) + [y.l, y.r]
  {
    hide WordBlocks;
    var front := w[..2 * n - 2];
    var y := g(Block(w[2 * n - 2], w[2 * n - 1]));
    forall k | 0 <= k < 2 * n
      ensures WordBlocks(g, w, n)[k] == (WordBlocks(g, front, n - 1) + [y.l, y.r])[k]
    {
      WordBlockAt(g, w, n, k);
      if k < 2 * n - 2 {
        WordBlockAt(g, front, n - 1, k);
      }
    }
  }

  lemma ByteBlockOfWords(g: Block -> Block, x: Block)
    ensures ByteBlock(g, BytesOf(x)) == BytesOf(g(x))
  {
    hide BytesOf, BlockOf;
    BlockOfBytesOf(x);
  }

  lemma EcbMore(g: Block -> Block, b: seq<byte>, x: Block)
    requires |b| % 8 == 0
    ensures Ecb(g, b + BytesOf(x)) == Ecb(g, b) + BytesOf(g(x))
  {
    hide BytesOf, ByteBlock;
    ByteBlockOfWords(g, x);
    var c := b + BytesOf(x);
    assert c[..|c| - 8] == b && c[|c| - 8..] == BytesOf(x);
  }

  // Transforming the words of a text in blocks of two is ECB on its bytes.
  lemma {:induction false} EcbOfWords(g: Block -> Block, w: seq<word>, n: nat)
    requires |w| == 2 * n
    ensures |BytesOfWords(w)| % 8 == 0
    ensures Ecb(g, BytesOfWords(w)) == BytesOfWords(WordBlocks(g, w, n))
  {
    hide Ecb, BytesOf, BytesOfWord, WordBlocks, BytesOfWords;
    if n == 0 {
      EcbOfNothing(g, w);
    } else {
      var front, x := w[..2 * n - 2], Block(w[2 * n - 2], w[2 * n - 1]);
      EcbOfWords(g, front, n - 1);
      TwoWordsMore(w);
      EcbMore(g, BytesOfWords(front), x);
      OneBlockMore(g, w, n);
      var r := WordBlocks(g, w, n);
      TwoWordsMore(r);
      assert r[..2 * n - 2] == WordBlocks(g, front, n - 1);
      assert Block(r[2 * n - 2], r[2 * n - 1]) == g(x);
    }
  }

  lemma EcbOfNothing(g: Block -> Block, w: seq<word>)
    requires w == []
    ensures BytesOfWords(w) == [] == Ecb(g, []) && WordBlocks(g, w, 0) == w
  {
  }

  // ----- The text

  lemma {:induction false} WordsOfBytes(data: seq<byte>, w: seq<word>, k: nat)
    requires |data| == 4 * |w| && k <= |w|
    requires forall i :: 0 <= i < |w| ==> BytesOfWord(w[i]) == data[4 * i..4 * i + 4]
    ensures BytesOfWords(w[..k]) == data[..4 * k]
  {
    hide BytesOfWord;
    if k > 0 {
      WordsOfBytes(data, w, k - 1);
      assert w[..k][..k - 1] == w[..k - 1];
      assert data[..4 * k] == data[..4 * k - 4] + data[4 * k - 4..4 * k];
    }
  }

  lemma WordsOfText()
    ensures BytesOfWords(TextWords()) == TEXT && |TEXT| == 24
  {
    hide TextWords, BytesOfWord, BytesOfWords;
    forall i | 0 <= i < 6 ensures BytesOfWord(TextWords()[i]) == TEXT[4 * i..4 * i + 4] {
      WordOfTextAt(i);
    }
    WordsOfBytes(TEXT, TextWords(), 6);
    assert TextWords()[..6] == TextWords() && TEXT[..24] == TEXT;
  }

  lemma WordOfTextAt(k: nat)
    requires k < 6
    ensures BytesOfWord(TextWords()[k]) == TEXT[4 * k..4 * k + 4]
  {
    hide BytesOfWord, StreamWord;
    StreamWordBytes(TEXT, 24, 4 * k);
  }

  lemma StreamWordBytes(data: seq<byte>, n: nat, i: nat)
    requires i + 4 <= n <= |data|
    ensures BytesOfWord(StreamWord(data, n, i)) == data[i..i + 4]
  {
    hide WordOf, BytesOfWord;
    forall j | i <= j < i + 4 ensures j % n == j {
      SmallResidue(j, n);
    }
    BytesOfWordOf(data[i], data[i + 1], data[i + 2], data[i + 3]);
  }

  lemma {:induction false} TextsUpTo(t: Tables, k: nat) returns (cs: seq<seq<byte>>)
    ensures |cs| == k + 1 && cs[0] == TEXT && cs[k] == BytesOfWords(Encrypted(t, k))
    ensures forall i :: 0 <= i <= k ==> |cs[i]| == 24
    ensures forall i :: 0 <= i < k ==> cs[i + 1] == Ecb(Enciphering(t), cs[i])
  {
    hide Ecb, BytesOfWords, WordBlocks, TextWords;
    if k == 0 {
      cs := [TEXT];
      WordsOfText();
    } else {
      cs := TextsUpTo(t, k - 1);
      EcbOfWords(Enciphering(t), Encrypted(t, k - 1), 3);
      cs := cs + [Ecb(Enciphering(t), cs[k - 1])];
    }
  }

  // A hash is its header, its salt and the first 23 bytes of the text, encrypted 64 times
  // under the tables that the key and salt schedules leave.
  ghost predicate MadeInSteps(
    init: Tables, password: seq<byte>, minor: byte, logr: nat, csalt: seq<byte>,
    ts: seq<Tables>, cs: seq<seq<byte>>, hash: seq<byte>)
    requires |csalt| == MAXSALT && logr <= 31
  {
    && AreKeyings(init, password + [0], KeyLength(minor, |password|), csalt, Rounds(logr), ts)
    && AreTexts(ts[|ts| - 1], cs)
    && hash == Header(minor, logr) + Encode(csalt) + Encode(cs[64][..23])
  }

  lemma HashFollowsTheSteps(init: Tables, password: seq<byte>, salt: seq<byte>, junk: seq<byte>)
    returns (ts: seq<Tables>, cs: seq<seq<byte>>)
    requires |junk| == MAXSALT && ReadSalt(salt).Salt?
    ensures var Salt(minor, logr, text) := ReadSalt(salt);
            MadeInSteps(init, password, minor, logr, SaltBytes(text, junk), ts, cs,
                        NodeBcrypt(init, password, salt, junk))
  {
    hide ReadSalt, Encode, Header, SaltBytes, Digest, MadeInSteps;
    var Salt(minor, logr, text) := ReadSalt(salt);
    ts, cs := StepsOf(init, password, minor, logr, SaltBytes(text, junk));
  }

  lemma StepsOf(init: Tables, password: seq<byte>, minor: byte, logr: nat, csalt: seq<byte>)
    returns (ts: seq<Tables>, cs: seq<seq<byte>>)
    requires |csalt| == MAXSALT && logr <= 31
    ensures MadeInSteps(init, password, minor, logr, csalt, ts, cs,
                        HashText(minor, logr, csalt,
                                 Digest(init, password + [0], KeyLength(minor, |password|), csalt, logr)))
  {
    hide Encode, Header, Rounds, KeyLength, Encrypted, Stretched, Ecb, BytesOfWords, Expand, Expand0;
    ts := StretchTrace(init, password + [0], KeyLength(minor, |password|), csalt, logr);
    cs := TextsUpTo(ts[|ts| - 1], 64);
  }
}
