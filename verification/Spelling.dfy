/** How a cipher list may be spelt: what the short names stand for, and that case and white space do not matter. */
module Spelling {
  import opened CipherList
  import opened Config
  import opened CounterMode
  import opened Results

  // ------------------------------------------------------------ short names

  /** The name stands at i in the table, for these ciphers, and exists in the mode. */
  ghost predicate Stands(table: seq<Entry>, i: nat, name: string, ciphers: seq<CipherChoice>, mode: CipherMode) {
    && i < |table| && table[i].name == name && table[i].ciphers == ciphers && !table[i].poly1305
    && (mode != Block ==> !table[i].blockOnly && forall c :: c in ciphers ==> c.IsAes())
    && ciphers != [] && StrictlySorted(ciphers)
  }

  /** A name on its own, with the suffix of a mode, is read as one token. */
  lemma NameIsRead(name: string, mode: CipherMode)
    requires Plain(name) && name[|name| - 1] != 'r' && name[|name| - 1] != 'm'
    ensures ReadAll(Parts(name + Suffix(mode))) == [Token(name, mode)]
  {
    NameSplits(name, mode);
    SuffixIsPlain(name, mode);
    SingleToken(name + Suffix(mode));
    PlainIsTidy(name + Suffix(mode));
  }

  /** Alone, it selects the ciphers it stands for. */
  lemma NameSelects(table: seq<Entry>, i: nat, name: string, ciphers: seq<CipherChoice>, mode: CipherMode)
    requires Described(table) && Stands(table, i, name, ciphers, mode)
    ensures Fold(table, [Token(name, mode)], 1) == Ok(State(ciphers, Some(mode)))
  {
    LookupAt(table, i, mode);
    FoldSingle(table, Token(name, mode), table[i]);
  }

  lemma NameFinishes(ciphers: seq<CipherChoice>, mode: CipherMode)
    requires ciphers != [] && StrictlySorted(ciphers) && (mode != Block ==> forall c :: c in ciphers ==> c.IsAes())
    ensures Finish(State(ciphers, Some(mode))) == Ok(Selection(ciphers, mode))
  {
    SortedDistinctIsFixed(ciphers);
  }

  lemma NameParses(table: seq<Entry>, i: nat, name: string, ciphers: seq<CipherChoice>, mode: CipherMode)
    requires Described(table) && Stands(table, i, name, ciphers, mode) && Plain(name)
    requires name[|name| - 1] != 'r' && name[|name| - 1] != 'm'
    ensures Outcome(table, ReadAll(Parts(name + Suffix(mode)))) == Ok(Selection(ciphers, mode))
  {
    NameIsRead(name, mode);
    NameSelects(table, i, name, ciphers, mode);
    NameFinishes(ciphers, mode);
  }

  lemma SuffixIsPlain(name: string, mode: CipherMode)
    requires Plain(name)
    ensures Plain(name + Suffix(mode))
  {
    forall x | x in name + Suffix(mode)
      ensures IsPlainChar(x)
    {
      assert x in name || x in Suffix(mode);
    }
  }

  lemma NameSplits(name: string, mode: CipherMode)
    requires name != "" && name[|name| - 1] != 'r' && name[|name| - 1] != 'm'
    ensures NameOf(name + Suffix(mode)) == name && ModeOf(name + Suffix(mode)) == mode
  {
    var t := name + Suffix(mode);
    assert t[|name|..] == Suffix(mode) && t[..|name|] == name;
    if mode == Block {
      NotSuffix(t, "-ctr");
      NotSuffix(t, "-gcm");
    } else if mode == Gcm {
      NotSuffix(t, "-ctr");
    }
  }

  /** Where the eight short names stand. */
  function ShortNames(): seq<(string, seq<CipherChoice>, nat)> {
    [ ("aes", [Aes128, Aes192, Aes256], 6), ("aes128", [Aes128], 1), ("aes192", [Aes192], 3), ("aes256", [Aes256], 5),
      ("chacha", [ChaCha20], 8), ("xchacha", [XChaCha20], 10), ("3des", [TdesEde3], 16), ("tdes", [TdesEde3], 18) ]
  }

  lemma ShortNameStands(k: nat, mode: CipherMode)
    requires k < |ShortNames()| && (k < 4 || mode == Block)
    ensures var (name, ciphers, i) := ShortNames()[k];
      Stands(Table(), i, name, ciphers, mode)
  {}

  lemma ShortNameIsPlain(k: nat)
    requires k < |ShortNames()|
    ensures var name := ShortNames()[k].0;
      Plain(name) && name[|name| - 1] != 'r' && name[|name| - 1] != 'm'
  {}

  /**
   * `aes` stands for the three AES ciphers, `aes128`, `aes192`, `aes256`, `chacha` and `xchacha`
   * for those they name, `3des` and `tdes` for triple DES; the AES names do so in every mode.
   */
  lemma ShortNameMeans(k: nat, mode: CipherMode)
    requires k < |ShortNames()| && (k < 4 || mode == Block)
    ensures var (name, ciphers, _) := ShortNames()[k];
      Parsed(name + Suffix(mode)) == Ok(Selection(ciphers, mode))
  {
    var (name, ciphers, i) := ShortNames()[k];
    TableDescribed();
    ShortNameStands(k, mode);
    ShortNameIsPlain(k);
    NameParses(Table(), i, name, ciphers, mode);
  }

  // -------------------------------------------------------------------- case

  /** The same character, or the same ASCII letter in the other case. */
  predicate SameLetter(x: char, y: char) {
    || x == y
    || ('A' <= x <= 'Z' && y as int == x as int + 32)
    || ('A' <= y <= 'Z' && x as int == y as int + 32)
  }

  ghost predicate SameLetters(a: string, b: string) {
    |a| == |b| && forall i :: 0 <= i < |a| ==> SameLetter(a[i], b[i])
  }

  ghost predicate SameParts(a: seq<string>, b: seq<string>) {
    |a| == |b| && forall i :: 0 <= i < |a| ==> SameLetters(a[i], b[i])
  }

  lemma LetterFacts(x: char, y: char)
    requires SameLetter(x, y)
    ensures IsWhitespace(x) == IsWhitespace(y) && (x == ',') == (y == ',') && LowerChar(x) == LowerChar(y)
  {}

  lemma {:induction false} SplitKeepsLetters(a: string, b: string)
    requires SameLetters(a, b)
    ensures SameParts(Split(a), Split(b))
  {
    if a != "" {
      LetterFacts(a[0], b[0]);
      SplitKeepsLetters(a[1..], b[1..]);
      var s, t := Split(a[1..]), Split(b[1..]);
      if a[0] != ',' {
        assert SameLetters([a[0]] + s[0], [b[0]] + t[0]);
      }
    }
  }

  lemma {:induction false} TrimStartKeepsLetters(a: string, b: string)
    requires SameLetters(a, b)
    ensures SameLetters(TrimStart(a), TrimStart(b))
  {
    if a != "" {
      LetterFacts(a[0], b[0]);
      TrimStartKeepsLetters(a[1..], b[1..]);
    }
  }

  lemma {:induction false} TrimEndKeepsLetters(a: string, b: string)
    requires SameLetters(a, b)
    ensures SameLetters(TrimEnd(a), TrimEnd(b))
  {
    if a != "" {
      LetterFacts(a[|a| - 1], b[|b| - 1]);
      TrimEndKeepsLetters(a[..|a| - 1], b[..|b| - 1]);
    }
  }

  lemma {:induction false} TidyKeepsLetters(a: seq<string>, b: seq<string>)
    requires SameParts(a, b)
    ensures SameParts(Tidy(a), Tidy(b))
  {
    if a != [] {
      TrimStartKeepsLetters(a[0], b[0]);
      TrimEndKeepsLetters(TrimStart(a[0]), TrimStart(b[0]));
      TidyKeepsLetters(a[1..], b[1..]);
    }
  }

  lemma LowerForgetsCase(a: string, b: string)
    requires SameLetters(a, b)
    ensures Lower(a) == Lower(b)
  {
    forall i | 0 <= i < |a|
      ensures Lower(a)[i] == Lower(b)[i]
    {
      LetterFacts(a[i], b[i]);
    }
  }

  /** Case does not matter: lists that differ in the case of letters alone are read as the same tokens. */
  lemma CaseIsIgnored(a: string, b: string)
    requires SameLetters(a, b)
    ensures ReadAll(Parts(a)) == ReadAll(Parts(b)) && Parsed(a) == Parsed(b)
  {
    SplitKeepsLetters(a, b);
    TidyKeepsLetters(Split(a), Split(b));
    forall i | 0 <= i < |Parts(a)|
      ensures ReadToken(Parts(a)[i]) == ReadToken(Parts(b)[i])
    {
      LowerForgetsCase(Parts(a)[i], Parts(b)[i]);
    }
    assert ReadAll(Parts(a)) == ReadAll(Parts(b));
  }

  // ------------------------------------------------------------- white space

  ghost predicate Blank(s: string) {
    forall c :: c in s ==> IsWhitespace(c)
  }

  lemma {:induction false} TrimStartDrops(u: string, s: string)
    requires Blank(u)
    ensures TrimStart(u + s) == TrimStart(s)
  {
    if u == "" {
      assert u + s == s;
    } else {
      assert u[0] in u;
      TrimStartDrops(u[1..], s);
      assert (u + s)[1..] == u[1..] + s;
    }
  }

  lemma {:induction false} TrimEndDrops(s: string, v: string)
    requires Blank(v)
    ensures TrimEnd(s + v) == TrimEnd(s)
  {
    if v == "" {
      assert s + v == s;
    } else {
      var n := |v| - 1;
      assert v[n] in v;
      TrimEndDrops(s, v[..n]);
      assert (s + v)[..|s + v| - 1] == s + v[..n];
    }
  }

  lemma {:induction false} BlankTrims(v: string)
    requires Blank(v)
    ensures TrimStart(v) == "" == TrimEnd(v)
  {
    TrimStartDrops(v, "");
    TrimEndDrops("", v);
    assert v + "" == v && "" + v == v;
  }

  /** Behind a text, white space is reached by trimming the start only if the text is blank. */
  lemma {:induction false} TrimStartKeepsEnd(s: string, v: string)
    ensures TrimStart(s + v) == if TrimStart(s) == "" then TrimStart(v) else TrimStart(s) + v
  {
    if s == "" {
      assert s + v == v;
    } else if IsWhitespace(s[0]) {
      TrimStartKeepsEnd(s[1..], v);
      assert (s + v)[1..] == s[1..] + v;
    }
  }

  /** White space around a part is dropped. */
  lemma TrimAround(u: string, s: string, v: string)
    requires Blank(u) && Blank(v)
    ensures Trim(u + s + v) == Trim(s)
  {
    assert u + s + v == u + (s + v);
    TrimStartDrops(u, s + v);
    TrimStartKeepsEnd(s, v);
    if TrimStart(s) == "" {
      BlankTrims(v);
    } else {
      TrimEndDrops(TrimStart(s), v);
    }
  }

  ghost predicate NoCommas(parts: seq<string>) {
    forall i :: 0 <= i < |parts| ==> ',' !in parts[i]
  }

  lemma {:induction false} SplitJoined(parts: seq<string>)
    requires parts != [] && NoCommas(parts)
    ensures Split(Join(parts)) == parts
  {
    assert ',' !in parts[0];
    if |parts| == 1 {
      SplitPrefix(parts[0], "");
      assert parts[0] + "" == parts[0];
    } else {
      SplitJoined(parts[1..]);
      var rest := "," + Join(parts[1..]);
      assert rest[1..] == Join(parts[1..]);
      SplitPrefix(parts[0], rest);
      assert parts[0] + "," + Join(parts[1..]) == parts[0] + rest;
      assert parts[0] + "" == parts[0];
    }
  }

  lemma {:induction false} TidyByTrim(a: seq<string>, b: seq<string>)
    requires |a| == |b| && forall i :: 0 <= i < |a| ==> Trim(a[i]) == Trim(b[i])
    ensures Tidy(a) == Tidy(b)
  {
    if a != [] {
      TidyByTrim(a[1..], b[1..]);
    }
  }

  /** White space does not matter: blanks around the parts of a list do not change what it is read as. */
  lemma BlanksAreIgnored(parts: seq<string>, before: seq<string>, after: seq<string>, spaced: seq<string>)
    requires parts != [] && |parts| == |before| == |after| == |spaced| && NoCommas(parts) && NoCommas(spaced)
    requires forall i :: 0 <= i < |parts| ==>
      Blank(before[i]) && Blank(after[i]) && spaced[i] == before[i] + parts[i] + after[i]
    ensures Parsed(Join(spaced)) == Parsed(Join(parts))
  {
    SplitJoined(parts);
    SplitJoined(spaced);
    forall i | 0 <= i < |parts|
      ensures Trim(spaced[i]) == Trim(parts[i])
    {
      TrimAround(before[i], parts[i], after[i]);
    }
    TidyByTrim(spaced, parts);
  }

  lemma TidySkips(a: seq<string>, blank: string, b: seq<string>)
    requires Blank(blank)
    ensures Tidy(a + [blank] + b) == Tidy(a + b)
  {
    BlankTrims(blank);
    TidyAppend(a + [blank], b);
    TidyAppend(a, [blank]);
    TidyAppend(a, b);
    assert [blank][1..] == [] && Tidy([blank]) == [];
  }

  /** An empty part, and a blank one, is skipped. */
  lemma BlankPartIsSkipped(a: seq<string>, blank: string, b: seq<string>)
    requires Blank(blank) && ',' !in blank && NoCommas(a) && NoCommas(b) && a + b != []
    ensures Parts(Join(a + [blank] + b)) == Parts(Join(a + b))
    ensures Parsed(Join(a + [blank] + b)) == Parsed(Join(a + b))
  {
    SplitJoined(a + [blank] + b);
    SplitJoined(a + b);
    TidySkips(a, blank, b);
  }

  lemma {:induction false} TidyAppend(a: seq<string>, b: seq<string>)
    ensures Tidy(a + b) == Tidy(a) + Tidy(b)
  {
    if a == [] {
      assert a + b == b;
    } else {
      TidyAppend(a[1..], b);
      assert (a + b)[1..] == a[1..] + b && (a + b)[0] == a[0];
      var first: seq<string>, rest := if Trim(a[0]) == "" then [] else [Trim(a[0])], Tidy(a[1..]);
      assert Tidy(a + b) == first + (rest + Tidy(b));
      assert Tidy(a) == first + rest;
    }
  }

  // ------------------------------------------------------------- rejections

  /** The first token that cannot be taken, after those before it were. */
  lemma {:induction false} FirstBadToken(table: seq<Entry>, ts: seq<Token>, k: nat) returns (i: nat)
    requires k <= |ts| && Fold(table, ts, k).Err?
    ensures i < k && Fold(table, ts, i).Ok? && Fold(table, ts, i + 1).Err?
    ensures Fold(table, ts, k) == Err(Fold(table, ts, i + 1).error)
    decreases k
  {
    if Fold(table, ts, k - 1).Ok? {
      i := k - 1;
    } else {
      i := FirstBadToken(table, ts, k - 1);
    }
  }

  /**
   * What a rejection says is so: a token that is unknown in its mode, a token of another mode than
   * the list has so far, no token at all, or a cipher other than AES outside block mode.
   */
  lemma RejectionIsTrue(table: seq<Entry>, ts: seq<Token>) returns (i: nat)
    requires Outcome(table, ts).Err? && forall e :: e in table ==> e.ciphers != []
    ensures match Outcome(table, ts).error
            case UnknownCipher(name) =>
              i < |ts| && name == ts[i].name && Lookup(table, ts[i].name, ts[i].mode).None?
            case MixedModes =>
              && 0 < i < |ts| && Fold(table, ts, i).Ok?
              && Fold(table, ts, i).value.mode.Some? && Fold(table, ts, i).value.mode.value != ts[i].mode
            case NoCipher => ts == []
            case AesOnly =>
              && Fold(table, ts, |ts|).Ok? && Fold(table, ts, |ts|).value.mode != Some(Block)
              && exists c :: c in Fold(table, ts, |ts|).value.out && !c.IsAes()
  {
    i := 0;
    if Fold(table, ts, |ts|).Err? {
      i := FirstBadToken(table, ts, |ts|);
    } else {
      var out := Fold(table, ts, |ts|).value.out;
      if ts != [] {
        LastTokenAdds(table, ts);
      }
      if j :| 0 <= j < |out| && !out[j].IsAes() {
        assert out[j] in out;
      }
    }
  }

  lemma LastTokenAdds(table: seq<Entry>, ts: seq<Token>)
    requires ts != [] && Fold(table, ts, |ts|).Ok? && forall e :: e in table ==> e.ciphers != []
    ensures Fold(table, ts, |ts|).value.out != []
  {}
}
