/**
 The hash of the dictionary is Jenkins's one-at-a-time hash, on values that are known for it.
 */
module KnownHashes {
  import opened Dictionary

  lemma MixesBehind(s: string, c: char)
    ensures MixAll(s + [c]) == Mix(MixAll(s), c)
  {
    assert (s + [c])[..|s|] == s;
  }

  lemma Codes()
    ensures ByteCode('a') == 0x61 && ByteCode('b') == 0x62 && ByteCode('c') == 0x63
  {}

  lemma Words()
    ensures 0x61 as bv32 == 0x61 && 0x62 as bv32 == 0x62 && 0x63 as bv32 == 0x63
  {}

  lemma WidenedTo(c: char, n: int)
    requires ByteCode(c) == n && 0 <= n < 0x1_0000_0000
    ensures Widen(c) == n as bv32
  {
    hide ByteCode;
  }

  lemma Widened()
    ensures Widen('a') == 0x61 && Widen('b') == 0x62 && Widen('c') == 0x63
  {
    Codes();
    hide ByteCode, Widen;
    WidenedTo('a', 0x61);
    WidenedTo('b', 0x62);
    WidenedTo('c', 0x63);
    Words();
  }

  lemma Mixed()
    ensures Mix(0, 'a') == 0x1_8270 && Mix(0x1_8270, 'b') == 0x614_F9F9 && Mix(0x614_F9F9, 'c') == 0x5899_93F5
  {
    Widened();
    hide Widen;
  }

  lemma Finished()
    ensures Finish(0) == 0 && Finish(0x1_8270) == 0xCA2E_9442 && Finish(0x5899_93F5) == 0xED13_1F5B
  {}

  /** The known values of three short texts. */
  lemma HashValues()
    ensures Hash("") == 0 && Hash("a") == 0xCA2E_9442 && Hash("abc") == 0xED13_1F5B
  {
    MixesBehind("", 'a');
    MixesBehind("a", 'b');
    MixesBehind("ab", 'c');
    assert "" + ['a'] == "a" && "a" + ['b'] == "ab" && "ab" + ['c'] == "abc";
    Mixed();
    Finished();
    assert MixAll("") == 0;
    hide Mix, Widen, MixAll, Finish;
  }

  /** A byte above 127 counts as its sign extension to 32 bits. */
  lemma SignExtended(c: char)
    requires c as int < 256
    ensures ByteCode(c) - (if c as int < 128 then 0 else 0x1_0000_0000) == c as int - (if c as int < 128 then 0 else 256)
  {}
}
