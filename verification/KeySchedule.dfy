/**
 * Detection of AES key schedules. Everything holds for an arbitrary S-box; the scan
 * is instantiated with the real one.
 */
module KeySchedule {
  import opened Bytes
  import opened Results
  import opened Words

  type Box = byte -> byte

  /** The key sizes, in words. */
  predicate IsKeySize(nk: nat) {
    nk == 4 || nk == 6 || nk == 8
  }

  /** Words of a full schedule: 11, 13 or 15 round keys. */
  function ScheduleWords(nk: nat): nat
    requires IsKeySize(nk)
  {
    match nk
    case 4 => 44
    case 6 => 52
    case _ => 60
  }

  // ------------------------------------------------ FIPS-197, section 5.2

  /** Multiplication by x in GF(2^8). */
  function XTime(b: byte): byte {
    (b << 1) ^ (if b & 0x80 != 0 then 0x1b else 0)
  }

  /** x^j in GF(2^8): the round constant of round j + 1. */
  function FipsRcon(j: nat): byte {
    if j == 0 then 1 else XTime(FipsRcon(j - 1))
  }

  function RotWord(w: Word): Word {
    w[1..] + w[..1]
  }

  /** RotWord rotates the word by one byte to the left. */
  lemma RotWordRotates(w: Word, k: nat)
    ensures Bit(RotWord(w), k) == Bit(w, k + 8)
  {
    BitIndex(k, 8);
  }

  /** The word with `r` added to its first byte. */
  function AddRcon(w: Word, r: byte): Word {
    w[0 := w[0] ^ r]
  }

  /** The second operand of w[i] = w[i-nk] ^ temp. */
  function FipsTemp(box: Box, prev: Word, i: nat, nk: nat): Word
    requires 0 < nk <= i
  {
    if i % nk == 0 then
      AddRcon(Substitute(box, RotWord(prev)), FipsRcon(i / nk - 1))
    else if nk == 8 && i % 8 == 4 then Substitute(box, prev)
    else prev
  }

  /** The first n words of the expansion of `key`. */
  function FipsExpand(box: Box, key: seq<Word>, n: nat): (ws: seq<Word>)
    requires 0 < |key| <= n
    ensures |ws| == n
    decreases n
  {
    if n == |key| then key
    else
      var ws := FipsExpand(box, key, n - 1);
      ws + [Xor4(ws[n - 1 - |key|], FipsTemp(box, ws[n - 2], n - 1, |key|))]
  }

  lemma {:induction false} ExpandPrefix(box: Box, key: seq<Word>, m: nat, n: nat)
    requires 0 < |key| <= m <= n
    ensures FipsExpand(box, key, n)[..m] == FipsExpand(box, key, m)
    decreases n
  {
    if m != n {
      ExpandPrefix(box, key, m, n - 1);
      var ws, shorter := FipsExpand(box, key, n), FipsExpand(box, key, n - 1);
      assert ws[..m] == shorter[..m];
    }
  }

  /** The recurrence, word by word. */
  lemma ExpandAt(box: Box, key: seq<Word>, n: nat, i: nat)
    requires 0 < |key| <= i < n
    ensures var ws := FipsExpand(box, key, n);
            ws[i] == Xor4(ws[i - |key|], FipsTemp(box, ws[i - 1], i, |key|))
  {
    ExpandPrefix(box, key, i + 1, n);
    ExpandPrefix(box, key, i, n);
    var ws := FipsExpand(box, key, n);
    assert ws[i] == ws[..i + 1][i];
    assert ws[i - 1] == ws[..i][i - 1] && ws[i - |key|] == ws[..i][i - |key|];
  }

  lemma ExpandStartsWithKey(box: Box, key: seq<Word>, n: nat)
    requires 0 < |key| <= n
    ensures FipsExpand(box, key, n)[..|key|] == key
  {
    ExpandPrefix(box, key, |key|, n);
  }

  // ------------------------------------------------------- the code's step

  const RCON: seq<byte> := [0x01, 0x02, 0x04, 0x08, 0x10, 0x20, 0x40, 0x80, 0x1b, 0x36, 0x6c]

  /** `expand_word`: the round constant is looked up, clamped to the last entry. */
  function ExpandWord(box: Box, words: seq<Word>, i: nat, nk: nat): Word
    requires 0 < nk <= i <= |words|
  {
    var prev := words[i - 1];
    var temp :=
      if i % nk == 0 then
        AddRcon(Substitute(box, RotWord(prev)), RCON[Min(i / nk - 1, |RCON| - 1)])
      else if nk == 8 && i % 8 == 4 then Substitute(box, prev)
      else prev;
    Xor4(words[i - nk], temp)
  }

  lemma RconTable(j: nat)
    requires j < |RCON|
    ensures RCON[j] == FipsRcon(j)
    ensures FipsRcon(j) == 1 <==> j == 0
  {
    assert FipsRcon(0) == 0x01 && FipsRcon(1) == 0x02 && FipsRcon(2) == 0x04 && FipsRcon(3) == 0x08;
    assert FipsRcon(4) == 0x10 && FipsRcon(5) == 0x20 && FipsRcon(6) == 0x40 && FipsRcon(7) == 0x80;
    assert FipsRcon(8) == 0x1b && FipsRcon(9) == 0x36 && FipsRcon(10) == 0x6c;
  }

  lemma RoundBound(i: nat, nk: nat)
    requires IsKeySize(nk) && nk <= i < ScheduleWords(nk)
    ensures 0 <= i / nk - 1 < 10
  {}

  /** Within a real schedule the clamp is never reached, and the code's step is the standard's. */
  lemma ExpandWordIsFips(box: Box, words: seq<Word>, i: nat, nk: nat)
    requires IsKeySize(nk) && nk <= i < ScheduleWords(nk) && i <= |words|
    ensures i / nk - 1 < |RCON| - 1
    ensures ExpandWord(box, words, i, nk) == Xor4(words[i - nk], FipsTemp(box, words[i - 1], i, nk))
  {
    RoundBound(i, nk);
    RconTable(i / nk - 1);
  }

  // -------------------------------------------------------------- the head

  function WordsAt(dump: seq<byte>, offset: nat, n: nat): seq<Word>
    requires offset + 4 * n <= |dump|
  {
    seq(n, i requires 0 <= i < n => WordAt(dump, offset + i * 4))
  }

  /** The window is the first nk + 4 words of the expansion of its own first nk words. */
  predicate IsHead(box: Box, dump: seq<byte>, offset: nat, nk: nat)
    requires 0 < nk
  {
    && offset + 4 * (nk + 4) <= |dump|
    && WordsAt(dump, offset, nk + 4) == FipsExpand(box, WordsAt(dump, offset, nk), nk + 4)
  }

  /** `schedule_head_valid`: each word is recomputed from dump words, not from computed ones. */
  method ScheduleHeadValid(box: Box, dump: seq<byte>, offset: nat, nk: nat) returns (r: Option<nat>)
    requires IsKeySize(nk)
    ensures r == if IsHead(box, dump, offset, nk) then Some(4) else None
  {
    var nWords := nk + 4;
    if offset + nWords * 4 > |dump| {
      return None;
    }
    var words: seq<Word> := [];
    for i := 0 to nWords
      invariant |words| == i && words == WordsAt(dump, offset, nWords)[..i]
    {
      words := words + [WordAt(dump, offset + i * 4)];
    }
    assert words == WordsAt(dump, offset, nWords);
    ghost var key := WordsAt(dump, offset, nk);
    assert words[..nk] == key;
    for i := nk to nWords
      invariant words[..i] == FipsExpand(box, key, i)
    {
      ExpandWordIsFips(box, words, i, nk);
      HeadStep(box, words, key, i);
      if words == FipsExpand(box, key, nWords) {
        HeadPrefix(box, words, key, i);
      }
      if ExpandWord(box, words, i, nk) != words[i] {
        return None;
      }
    }
    assert words[..nWords] == words;
    return Some(4);
  }

  lemma HeadStep(box: Box, words: seq<Word>, key: seq<Word>, i: nat)
    requires 0 < |key| <= i < |words| && words[..i] == FipsExpand(box, key, i)
    ensures words[i] == Xor4(words[i - |key|], FipsTemp(box, words[i - 1], i, |key|))
      <==> words[..i + 1] == FipsExpand(box, key, i + 1)
  {
    assert words[..i + 1] == words[..i] + [words[i]];
    InSlice(words, 0, words[..i], i - 1);
    InSlice(words, 0, words[..i], i - |key|);
  }

  lemma HeadPrefix(box: Box, words: seq<Word>, key: seq<Word>, i: nat)
    requires 0 < |key| <= i < |words| && words == FipsExpand(box, key, |words|)
    ensures words[..i + 1] == FipsExpand(box, key, i + 1)
  {
    ExpandPrefix(box, key, i + 1, |words|);
  }

  // -------------------------------------------------------------- theorems

  /** The dump holds the first n words of the expansion of `key` at `offset`. */
  ghost predicate HoldsSchedule(box: Box, dump: seq<byte>, offset: nat, key: seq<Word>, n: nat)
  {
    && 0 < |key| <= n
    && offset + 4 * n <= |dump|
    && WordsAt(dump, offset, n) == FipsExpand(box, key, n)
  }

  lemma SubWords(dump: seq<byte>, offset: nat, n: nat, from: nat, k: nat)
    requires from + k <= n && offset + 4 * n <= |dump|
    ensures WordsAt(dump, offset + 4 * from, k) == WordsAt(dump, offset, n)[from..from + k]
  {}

  /** A full schedule is detected at its head, with the right key. */
  lemma ScheduleIsDetected(box: Box, dump: seq<byte>, offset: nat, key: seq<Word>)
    requires IsKeySize(|key|) && HoldsSchedule(box, dump, offset, key, ScheduleWords(|key|))
    ensures IsHead(box, dump, offset, |key|)
    ensures WordsAt(dump, offset, |key|) == key
  {
    var nk, n := |key|, ScheduleWords(|key|);
    var ws := FipsExpand(box, key, n);
    SubWords(dump, offset, n, 0, nk + 4);
    SubWords(dump, offset, n, 0, nk);
    assert WordsAt(dump, offset, nk + 4) == ws[..nk + 4] && WordsAt(dump, offset, nk) == ws[..nk];
    ExpandPrefix(box, key, nk + 4, n);
    ExpandStartsWithKey(box, key, n);
  }

  lemma AddRconInjective(w: Word, a: byte, b: byte)
    ensures AddRcon(w, a) == AddRcon(w, b) <==> a == b
  {
    assert AddRcon(w, a)[0] == w[0] ^ a && AddRcon(w, b)[0] == w[0] ^ b;
    assert w[0] ^ a == w[0] ^ b <==> a == b;
  }

  /** The operands of rounds 1 and m + 1 differ by their round constants alone. */
  lemma RconDistinguishes(box: Box, prev: Word, nk: nat, i: nat, m: nat)
    requires IsKeySize(nk) && nk <= i && i % nk == 0 && i / nk == m + 1 && m < 10
    ensures FipsTemp(box, prev, i, nk) == FipsTemp(box, prev, nk, nk) <==> m == 0
  {
    assert nk / nk == 1 && nk % nk == 0;
    RconTable(m);
    AddRconInjective(Substitute(box, RotWord(prev)), FipsRcon(m), FipsRcon(0));
  }

  lemma InSlice(ws: seq<Word>, from: nat, win: seq<Word>, i: nat)
    requires from + |win| <= |ws| && win == ws[from..from + |win|] && i < |win|
    ensures win[i] == ws[from + i]
  {}

  lemma FirstOfHead(box: Box, key: seq<Word>)
    requires IsKeySize(|key|)
    ensures FipsExpand(box, key, |key| + 4)[|key|] == Xor4(key[0], FipsTemp(box, key[|key| - 1], |key|, |key|))
  {
    var nk, ws := |key|, FipsExpand(box, key, |key| + 4);
    ExpandAt(box, key, nk + 4, nk);
    ExpandStartsWithKey(box, key, nk + 4);
    assert ws[0] == ws[..nk][0] && ws[nk - 1] == ws[..nk][nk - 1];
  }

  /** The first word after the key, from the bytes of the last one substituted. */
  lemma FirstWord(box: Box, key: seq<Word>, last: Word, sub: Word)
    requires IsKeySize(|key|) && key[|key| - 1] == last
    requires box(last[1]) == sub[0] && box(last[2]) == sub[1] && box(last[3]) == sub[2] && box(last[0]) == sub[3]
    ensures FipsExpand(box, key, |key| + 4)[|key|] == Xor4(key[0], AddRcon(sub, 1))
  {
    FirstOfHead(box, key);
    FirstTemp(box, last, sub, |key|);
  }

  lemma FirstTemp(box: Box, last: Word, sub: Word, nk: nat)
    requires 0 < nk
    requires box(last[1]) == sub[0] && box(last[2]) == sub[1] && box(last[3]) == sub[2] && box(last[0]) == sub[3]
    ensures FipsTemp(box, last, nk, nk) == AddRcon(sub, 1)
  {
    assert Substitute(box, RotWord(last)) == sub;
    assert nk / nk == 1 && nk % nk == 0 && FipsRcon(0) == 1;
  }

  /** The first step of the expansion example in appendix A.1 of FIPS-197, for a box with these four entries. */
  lemma ExampleWord(box: Box, key: seq<Word>)
    requires |key| == 4 && key[0] == [0x2b, 0x7e, 0x15, 0x16] && key[3] == [0x09, 0xcf, 0x4f, 0x3c]
    requires box(0xcf) == 0x8a && box(0x4f) == 0x84 && box(0x3c) == 0xeb && box(0x09) == 0x01
    ensures FipsExpand(box, key, |key| + 4)[|key|] == [0xa0, 0xfa, 0xfe, 0x17]
  {
    FirstWord(box, key, key[3], [0x8a, 0x84, 0xeb, 0x01]);
    ExampleSum();
  }

  lemma ExampleSum()
    ensures Xor4([0x2b, 0x7e, 0x15, 0x16], AddRcon([0x8a, 0x84, 0xeb, 0x01], 1)) == [0xa0, 0xfa, 0xfe, 0x17]
  {}

  /** A word of the schedule inside a window of it. */
  lemma WordInWindow(box: Box, key: seq<Word>, n: nat, win: seq<Word>, from: nat)
    requires IsKeySize(|key|) && from + |key| + 4 <= n
    requires win == FipsExpand(box, key, n)[from..from + |key| + 4]
    ensures win[|key|] == Xor4(win[0], FipsTemp(box, win[|key| - 1], from + |key|, |key|))
  {
    var nk, ws := |key|, FipsExpand(box, key, n);
    ExpandAt(box, key, n, from + nk);
    InSlice(ws, from, win, nk);
    InSlice(ws, from, win, 0);
    InSlice(ws, from, win, nk - 1);
  }

  /** The first word the check recomputes for a window. */
  lemma RecomputedWord(box: Box, win: seq<Word>, nk: nat)
    requires IsKeySize(nk) && nk < |win|
    ensures FipsExpand(box, win[..nk], nk + 4)[nk] == Xor4(win[0], FipsTemp(box, win[nk - 1], nk, nk))
  {
    FirstOfHead(box, win[..nk]);
    InSlice(win, 0, win[..nk], 0);
    InSlice(win, 0, win[..nk], nk - 1);
  }

  /** The check of a window at word `from` applies another second operand than the schedule did. */
  ghost predicate OtherRound(box: Box, from: nat, nk: nat)
    requires 0 < nk
  {
    forall prev :: FipsTemp(box, prev, from + nk, nk) != FipsTemp(box, prev, nk, nk)
  }

  lemma LaterRoundsDiffer(box: Box, nk: nat, m: nat)
    requires IsKeySize(nk) && 0 < m < 10
    ensures OtherRound(box, m * nk, nk)
  {
    var i := m * nk + nk;
    DivModUnique(i, nk, m + 1, 0);
    forall prev
      ensures FipsTemp(box, prev, i, nk) != FipsTemp(box, prev, nk, nk)
    {
      RconDistinguishes(box, prev, nk, i, m);
    }
  }

  /** Such a window fails at its first recomputed word. */
  lemma LaterWindowFails(box: Box, key: seq<Word>, n: nat, win: seq<Word>, from: nat)
    requires IsKeySize(|key|) && OtherRound(box, from, |key|) && from + |key| + 4 <= n
    requires win == FipsExpand(box, key, n)[from..from + |key| + 4]
    ensures win != FipsExpand(box, win[..|key|], |key| + 4)
  {
    var nk, i := |key|, from + |key|;
    WordInWindow(box, key, n, win, from);
    RecomputedWord(box, win, nk);
    var prev := win[nk - 1];
    Xor4Injective(win[0], FipsTemp(box, prev, i, nk), FipsTemp(box, prev, nk, nk));
  }

  /** The words of a window inside a schedule in the dump. */
  lemma WindowWords(dump: seq<byte>, offset: nat, ws: seq<Word>, from: nat, k: nat, nk: nat)
    requires nk <= k && from + k <= |ws| && offset + 4 * |ws| <= |dump| && WordsAt(dump, offset, |ws|) == ws
    ensures WordsAt(dump, offset + 4 * from, k) == ws[from..from + k]
    ensures WordsAt(dump, offset + 4 * from, nk) == ws[from..from + k][..nk]
  {
    SubWords(dump, offset, |ws|, from, k);
    SubWords(dump, offset + 4 * from, k, 0, nk);
  }

  lemma LaterWindowIsNoHead(box: Box, dump: seq<byte>, offset: nat, key: seq<Word>, n: nat, from: nat)
    requires IsKeySize(|key|) && HoldsSchedule(box, dump, offset, key, n)
    requires OtherRound(box, from, |key|) && from + |key| + 4 <= n
    ensures !IsHead(box, dump, offset + 4 * from, |key|)
  {
    var ws := FipsExpand(box, key, n);
    var win := ws[from..from + |key| + 4];
    LaterWindowFails(box, key, n, win, from);
    WindowWords(dump, offset, ws, from, |key| + 4, |key|);
    assert WordsAt(dump, offset + 4 * from, |key| + 4) == win;
    assert WordsAt(dump, offset + 4 * from, |key|) == win[..|key|];
  }

  /** No word is its own operand in the first round. */
  ghost predicate NoFixedWord(box: Box) {
    forall w: Word :: AddRcon(Substitute(box, RotWord(w)), 1) != w
  }

  function Iterate(box: Box, n: nat, b: byte): byte {
    if n == 0 then b else box(Iterate(box, n - 1, b))
  }

  /** The bytes of a word. */
  const WORD: nat := 4

  lemma FourTimes(box: Box, b: byte)
    ensures Iterate(box, WORD, b) == box(box(box(box(b))))
  {
    assert Iterate(box, WORD - 3, b) == box(b) && Iterate(box, WORD - 2, b) == box(box(b));
  }

  /** A fixed word would make four substitutions of its first byte a flip of the lowest bit. */
  lemma FixedWordReturns(box: Box)
    requires forall b :: Iterate(box, WORD, b) ^ 1 != b
    ensures NoFixedWord(box)
  {
    forall w: Word
      ensures AddRcon(Substitute(box, RotWord(w)), 1) != w
    {
      var v := AddRcon(Substitute(box, RotWord(w)), 1);
      assert v[0] == box(w[1]) ^ 1 && v[1] == box(w[2]) && v[2] == box(w[3]) && v[3] == box(w[0]);
      FourTimes(box, w[0]);
    }
  }

  lemma RotationBreaks(box: Box, prev: Word)
    ensures AddRcon(Substitute(box, RotWord(prev)), 1) != Substitute(box, prev)
  {
    var v, w := AddRcon(Substitute(box, RotWord(prev)), 1), Substitute(box, prev);
    assert v[0] == box(prev[1]) ^ 1 && v[1] == box(prev[2]) && v[2] == box(prev[3]) && v[3] == box(prev[0]);
    assert box(prev[1]) ^ 1 != box(prev[1]);
  }

  /** Between multiples of nk words the schedule applies no round constant, while the check applies the first one. */
  lemma OtherStepsDiffer(box: Box, nk: nat, from: nat)
    requires IsKeySize(nk) && from % nk != 0 && NoFixedWord(box)
    ensures OtherRound(box, from, nk)
  {
    assert (from + nk) % nk == from % nk by {
      DropOneBlock(from + nk, nk);
    }
    assert FipsRcon(nk / nk - 1) == 1;
    forall prev
      ensures FipsTemp(box, prev, from + nk, nk) != FipsTemp(box, prev, nk, nk)
    {
      RotationBreaks(box, prev);
    }
  }

  /**
   * Nothing inside a schedule re-hits: of the windows that start any number of words into a
   * full schedule, exactly the head itself is reported, because the check always applies the
   * first round constant.
   */
  lemma OnlyTheHeadHits(box: Box, dump: seq<byte>, offset: nat, key: seq<Word>, from: nat)
    requires IsKeySize(|key|) && HoldsSchedule(box, dump, offset, key, ScheduleWords(|key|))
    requires from + |key| + 4 <= ScheduleWords(|key|)
    requires from % |key| == 0 || NoFixedWord(box)
    ensures IsHead(box, dump, offset + 4 * from, |key|) <==> from == 0
  {
    var nk := |key|;
    if from == 0 {
      ScheduleIsDetected(box, dump, offset, key);
    } else {
      if from % nk == 0 {
        WindowRounds(nk, from);
        LaterRoundsDiffer(box, nk, from / nk);
      } else {
        OtherStepsDiffer(box, nk, from);
      }
      LaterWindowIsNoHead(box, dump, offset, key, ScheduleWords(nk), from);
    }
  }

  lemma WindowRounds(nk: nat, from: nat)
    requires IsKeySize(nk) && 0 < from && from % nk == 0 && from + nk + 4 <= ScheduleWords(nk)
    ensures 0 < from / nk < 10 && from / nk * nk == from
  {}

  lemma AgreeStep(box: Box, a: seq<Word>, b: seq<Word>, n: nat, i: nat)
    requires 0 < |a| == |b| <= i < n
    requires FipsExpand(box, a, n)[i - 1] == FipsExpand(box, b, n)[i - 1]
    requires FipsExpand(box, a, n)[i - |a|] == FipsExpand(box, b, n)[i - |a|]
    ensures FipsExpand(box, a, n)[i] == FipsExpand(box, b, n)[i]
  {
    ExpandAt(box, a, n, i);
    ExpandAt(box, b, n, i);
  }

  lemma SliceAt(u: seq<Word>, v: seq<Word>, s: nat, k: nat, i: nat)
    requires s <= i < s + k <= |u| == |v| && u[s..s + k] == v[s..s + k]
    ensures u[i] == v[i]
  {
    assert u[i] == u[s..s + k][i - s] && v[i] == v[s..s + k][i - s];
  }

  /** Schedules that agree on nk consecutive words agree on the words after them... */
  lemma {:induction false} AgreeForward(box: Box, a: seq<Word>, b: seq<Word>, n: nat, s: nat, i: nat)
    requires 0 < |a| == |b| <= n && s + |a| <= n && s <= i < n
    requires FipsExpand(box, a, n)[s..s + |a|] == FipsExpand(box, b, n)[s..s + |a|]
    ensures FipsExpand(box, a, n)[i] == FipsExpand(box, b, n)[i]
    decreases i
  {
    if i < s + |a| {
      SliceAt(FipsExpand(box, a, n), FipsExpand(box, b, n), s, |a|, i);
    } else {
      AgreeForward(box, a, b, n, s, i - 1);
      AgreeForward(box, a, b, n, s, i - |a|);
      AgreeStep(box, a, b, n, i);
    }
  }

  lemma StepBack(box: Box, a: seq<Word>, b: seq<Word>, n: nat, i: nat)
    requires 0 < |a| == |b| <= i < n
    requires FipsExpand(box, a, n)[i] == FipsExpand(box, b, n)[i]
    requires FipsExpand(box, a, n)[i - 1] == FipsExpand(box, b, n)[i - 1]
    ensures FipsExpand(box, a, n)[i - |a|] == FipsExpand(box, b, n)[i - |a|]
  {
    var u, v, nk := FipsExpand(box, a, n), FipsExpand(box, b, n), |a|;
    ExpandAt(box, a, n, i);
    ExpandAt(box, b, n, i);
    Xor4Injective(FipsTemp(box, u[i - 1], i, nk), u[i - nk], v[i - nk]);
  }

  /** ...and on the word before them... */
  lemma AgreeOneBack(box: Box, a: seq<Word>, b: seq<Word>, n: nat, s: nat)
    requires 1 < |a| == |b| <= n && 0 < s && s + |a| <= n
    requires FipsExpand(box, a, n)[s..s + |a|] == FipsExpand(box, b, n)[s..s + |a|]
    ensures FipsExpand(box, a, n)[s - 1] == FipsExpand(box, b, n)[s - 1]
  {
    var i := s - 1 + |a|;
    AgreeForward(box, a, b, n, s, i);
    AgreeForward(box, a, b, n, s, i - 1);
    StepBack(box, a, b, n, i);
  }

  lemma ShiftBack(u: seq<Word>, v: seq<Word>, s: nat, nk: nat)
    requires 0 < s && 0 < nk && s + nk <= |u| == |v|
    requires u[s..s + nk] == v[s..s + nk] && u[s - 1] == v[s - 1]
    ensures u[s - 1..s - 1 + nk] == v[s - 1..s - 1 + nk]
  {
    assert u[s - 1..s - 1 + nk] == [u[s - 1]] + u[s..s + nk][..nk - 1];
    assert v[s - 1..s - 1 + nk] == [v[s - 1]] + v[s..s + nk][..nk - 1];
  }

  /** ...hence on all words before them. */
  lemma {:induction false} AgreeBackward(box: Box, a: seq<Word>, b: seq<Word>, n: nat, s: nat)
    requires 1 < |a| == |b| <= n && s + |a| <= n
    requires FipsExpand(box, a, n)[s..s + |a|] == FipsExpand(box, b, n)[s..s + |a|]
    ensures a == b
    decreases s
  {
    if s == 0 {
      ExpandStartsWithKey(box, a, n);
      ExpandStartsWithKey(box, b, n);
    } else {
      AgreeOneBack(box, a, b, n, s);
      ShiftBack(FipsExpand(box, a, n), FipsExpand(box, b, n), s, |a|);
      AgreeBackward(box, a, b, n, s - 1);
    }
  }

  /** Any nk consecutive words determine the whole schedule, master key included. */
  lemma WordsDetermineSchedule(box: Box, a: seq<Word>, b: seq<Word>, n: nat, s: nat)
    requires IsKeySize(|a|) && |a| == |b| <= n && s + |a| <= n
    requires FipsExpand(box, a, n)[s..s + |a|] == FipsExpand(box, b, n)[s..s + |a|]
    ensures a == b && FipsExpand(box, a, n) == FipsExpand(box, b, n)
  {
    AgreeBackward(box, a, b, n, s);
  }
}
