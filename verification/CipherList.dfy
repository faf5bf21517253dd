/** Parsing of the comma-separated cipher list, and printing it back. */
module CipherList {
  import opened Config
  import opened CounterMode
  import opened Results

  datatype Selection = Selection(ciphers: seq<CipherChoice>, mode: CipherMode)

  datatype ParseError = MixedModes | UnknownCipher(name: string) | NoCipher | AesOnly

  // ---------------------------------------------------------------- strings

  /** Unicode White_Space. */
  predicate IsWhitespace(c: char) {
    || '\U{0009}' <= c <= '\U{000D}' || c == ' ' || c == '\U{0085}' || c == '\U{00A0}' || c == '\U{1680}'
    || '\U{2000}' <= c <= '\U{200A}' || c == '\U{2028}' || c == '\U{2029}' || c == '\U{202F}' || c == '\U{205F}'
    || c == '\U{3000}'
  }

  function TrimStart(s: string): string {
    if s != [] && IsWhitespace(s[0]) then TrimStart(s[1..]) else s
  }

  function TrimEnd(s: string): string {
    if s != [] && IsWhitespace(s[|s| - 1]) then TrimEnd(s[..|s| - 1]) else s
  }

  function Trim(s: string): string {
    TrimEnd(TrimStart(s))
  }

  function LowerChar(c: char): char {
    if 'A' <= c <= 'Z' then (c as int + 32) as char else c
  }

  function Lower(s: string): string {
    seq(|s|, i requires 0 <= i < |s| => LowerChar(s[i]))
  }

  predicate EndsWith(s: string, suffix: string) {
    |suffix| <= |s| && s[|s| - |suffix|..] == suffix
  }

  /** `split(',')`: one part more than there are commas. */
  function Split(s: string): (parts: seq<string>)
    ensures parts != []
  {
    if s == [] then [""]
    else
      var rest := Split(s[1..]);
      if s[0] == ',' then [""] + rest else [[s[0]] + rest[0]] + rest[1..]
  }

  function Join(parts: seq<string>): string
    requires parts != []
  {
    if |parts| == 1 then parts[0] else parts[0] + "," + Join(parts[1..])
  }

  /** Trimmed, the empty ones left out. */
  function Tidy(parts: seq<string>): seq<string> {
    if parts == [] then []
    else (if Trim(parts[0]) == "" then [] else [Trim(parts[0])]) + Tidy(parts[1..])
  }

  function Parts(spec: string): seq<string> {
    Tidy(Split(spec))
  }

  // ----------------------------------------------------------------- tokens

  function ModeOf(lower: string): CipherMode {
    if EndsWith(lower, "-ctr") then Ctr
    else if EndsWith(lower, "-gcm") then Gcm
    else Block
  }

  function NameOf(lower: string): string {
    if ModeOf(lower) == Block then lower else lower[..|lower| - 4]
  }

  function All(): seq<CipherChoice> {
    [Aes128, Aes192, Aes256, Des, TdesEde3, Sm4, ChaCha20, XChaCha20]
  }

  datatype Token = Token(name: string, mode: CipherMode)

  /** A part in lower case, its mode suffix split off. */
  function ReadToken(part: string): Token {
    Token(NameOf(Lower(part)), ModeOf(Lower(part)))
  }

  function ReadAll(parts: seq<string>): (ts: seq<Token>)
    ensures |ts| == |parts|
  {
    seq(|parts|, i requires 0 <= i < |parts| => ReadToken(parts[i]))
  }

  /** One arm of the token match: some names exist in block mode only, some force GCM. */
  datatype Entry = Entry(name: string, ciphers: seq<CipherChoice>, blockOnly: bool, poly1305: bool)

  function Table(): seq<Entry> {
    [ Entry("aes-128", [Aes128], false, false), Entry("aes128", [Aes128], false, false),
      Entry("aes-192", [Aes192], false, false), Entry("aes192", [Aes192], false, false),
      Entry("aes-256", [Aes256], false, false), Entry("aes256", [Aes256], false, false),
      Entry("aes", [Aes128, Aes192, Aes256], false, false),
      Entry("chacha20", [ChaCha20], false, false), Entry("chacha", [ChaCha20], false, false),
      Entry("xchacha20", [XChaCha20], false, false), Entry("xchacha", [XChaCha20], false, false),
      Entry("chacha20poly1305", [ChaCha20], false, true), Entry("chacha20-poly1305", [ChaCha20], false, true),
      Entry("xchacha20poly1305", [XChaCha20], false, true), Entry("xchacha20-poly1305", [XChaCha20], false, true),
      Entry("des", [Des], true, false),
      Entry("3des", [TdesEde3], true, false), Entry("3des-ede3", [TdesEde3], true, false),
      Entry("tdes", [TdesEde3], true, false),
      Entry("sm4", [Sm4], true, false), Entry("all", All(), true, false) ]
  }

  /** The first arm that takes the token. */
  function Lookup(table: seq<Entry>, name: string, mode: CipherMode): (e: Option<Entry>)
    ensures e.Some? ==> e.value in table && e.value.name == name
  {
    if table == [] then None
    else if table[0].name == name && (table[0].blockOnly ==> mode == Block) then Some(table[0])
    else Lookup(table[1..], name, mode)
  }

  /** Ciphers so far and the mode settled on. */
  datatype State = State(out: seq<CipherChoice>, mode: Option<CipherMode>)

  function Step(table: seq<Entry>, s: State, t: Token): Result<State, ParseError> {
    if s.mode.Some? && s.mode.value != t.mode then Err(MixedModes)
    else
      match Lookup(table, t.name, t.mode)
      case None => Err(UnknownCipher(t.name))
      case Some(e) => Ok(State(s.out + e.ciphers, Some(if e.poly1305 then Gcm else t.mode)))
  }

  function Fold(table: seq<Entry>, ts: seq<Token>, k: nat): Result<State, ParseError>
    requires k <= |ts|
  {
    if k == 0 then Ok(State([], None))
    else
      var s :- Fold(table, ts, k - 1);
      Step(table, s, ts[k - 1])
  }

  /** `sort` and `dedup`. */
  function SortedDistinct(cs: seq<CipherChoice>): seq<CipherChoice> {
    Pick(All(), cs)
  }

  function Pick(from: seq<CipherChoice>, cs: seq<CipherChoice>): seq<CipherChoice> {
    if from == [] then []
    else (if from[0] in cs then [from[0]] else []) + Pick(from[1..], cs)
  }

  function Finish(s: State): Result<Selection, ParseError> {
    var mode := if s.mode.Some? then s.mode.value else Block;
    if s.out == [] then Err(NoCipher)
    else if mode != Block && exists i :: 0 <= i < |s.out| && !s.out[i].IsAes() then Err(ParseError.AesOnly)
    else Ok(Selection(SortedDistinct(s.out), mode))
  }

  /** What a list of tokens is parsed to. */
  function Outcome(table: seq<Entry>, ts: seq<Token>): Result<Selection, ParseError> {
    var s :- Fold(table, ts, |ts|);
    Finish(s)
  }

  function Parsed(spec: string): Result<Selection, ParseError> {
    Outcome(Table(), ReadAll(Parts(spec)))
  }

  // --------------------------------------------------------- implementation

  lemma {:induction false} FoldFails(table: seq<Entry>, ts: seq<Token>, j: nat, k: nat)
    requires j <= k <= |ts| && Fold(table, ts, j).Err?
    ensures Fold(table, ts, k) == Fold(table, ts, j)
    decreases k
  {
    if j != k {
      FoldFails(table, ts, j, k - 1);
    }
  }

  /** The loop over the tokens. */
  method ParseTokens(table: seq<Entry>, ts: seq<Token>) returns (r: Result<State, ParseError>)
    ensures r == Fold(table, ts, |ts|)
  {
    var out: seq<CipherChoice> := [];
    var mode: Option<CipherMode> := None;
    for i := 0 to |ts|
      invariant Fold(table, ts, i) == Ok(State(out, mode))
    {
      var token := ts[i];
      if mode.Some? && mode.value != token.mode {
        FoldFails(table, ts, i + 1, |ts|);
        return Err(MixedModes);
      }
      mode := Some(token.mode);
      var entry := Lookup(table, token.name, token.mode);
      if entry.None? {
        FoldFails(table, ts, i + 1, |ts|);
        return Err(UnknownCipher(token.name));
      }
      out := out + entry.value.ciphers;
      if entry.value.poly1305 {
        mode := Some(Gcm);
      }
    }
    return Ok(State(out, mode));
  }

  /** `CipherChoice::parse_list`. */
  method ParseList(spec: string) returns (r: Result<Selection, ParseError>)
    ensures r == Parsed(spec)
  {
    var state := ParseTokens(Table(), ReadAll(Parts(spec)));
    if state.Err? {
      return Err(state.error);
    }
    return Finish(state.value);
  }

  // -------------------------------------------------------- shape of a result

  /** Position in the declaration order, which is the sort order. */
  function Index(c: CipherChoice): nat {
    match c
    case Aes128 => 0
    case Aes192 => 1
    case Aes256 => 2
    case Des => 3
    case TdesEde3 => 4
    case Sm4 => 5
    case ChaCha20 => 6
    case XChaCha20 => 7
  }

  ghost predicate StrictlySorted(cs: seq<CipherChoice>) {
    forall i, j :: 0 <= i < j < |cs| ==> Index(cs[i]) < Index(cs[j])
  }

  lemma AllIsEverything()
    ensures StrictlySorted(All())
    ensures forall c: CipherChoice :: c in All()
  {
    forall c: CipherChoice
      ensures c in All()
    {
      assert All()[Index(c)] == c;
    }
  }

  lemma {:induction false} PickIsExact(from: seq<CipherChoice>, cs: seq<CipherChoice>)
    requires StrictlySorted(from)
    ensures forall c :: c in Pick(from, cs) <==> c in from && c in cs
    ensures StrictlySorted(Pick(from, cs))
  {
    if from != [] {
      PickIsExact(from[1..], cs);
      assert forall c :: c in from <==> c == from[0] || c in from[1..];
      var rest := Pick(from[1..], cs);
      forall j | 0 <= j < |rest|
        ensures Index(from[0]) < Index(rest[j])
      {
        assert rest[j] in from[1..];
      }
    }
  }

  lemma FirstMember(b: seq<CipherChoice>) returns (c: CipherChoice)
    requires b != []
    ensures c in b
  {
    c := b[0];
  }

  /** Two strictly sorted lists with the same members are equal. */
  lemma {:induction false} SortedUnique(a: seq<CipherChoice>, b: seq<CipherChoice>)
    requires StrictlySorted(a) && StrictlySorted(b)
    requires forall c :: c in a <==> c in b
    ensures a == b
    decreases |a|
  {
    if a == [] {
      if b != [] {
        var c := FirstMember(b);
      }
    } else {
      assert a[0] in b;
      assert b[0] in a;
      assert a[0] == b[0];
      forall c
        ensures c in a[1..] <==> c in b[1..]
      {
        TailMembers(a, c);
        TailMembers(b, c);
      }
      SortedUnique(a[1..], b[1..]);
      assert a == [a[0]] + a[1..] && b == [b[0]] + b[1..];
    }
  }

  lemma TailMembers(a: seq<CipherChoice>, c: CipherChoice)
    requires StrictlySorted(a) && a != []
    ensures c in a[1..] <==> c in a && c != a[0]
  {}

  lemma SortedDistinctIsFixed(cs: seq<CipherChoice>)
    requires StrictlySorted(cs)
    ensures SortedDistinct(cs) == cs
  {
    AllIsEverything();
    PickIsExact(All(), cs);
    SortedUnique(SortedDistinct(cs), cs);
  }

  /** A usable selection. */
  ghost predicate WellFormed(s: Selection) {
    && s.ciphers != []
    && StrictlySorted(s.ciphers)
    && (s.mode != Block ==> forall i :: 0 <= i < |s.ciphers| ==> s.ciphers[i].IsAes())
  }

  /** Whatever is accepted is non-empty, strictly sorted, and all AES outside block mode. */
  lemma AcceptedIsWellFormed(spec: string)
    requires Parsed(spec).Ok?
    ensures WellFormed(Parsed(spec).value)
  {
    var ts := ReadAll(Parts(spec));
    var s := Fold(Table(), ts, |ts|).value;
    AllIsEverything();
    PickIsExact(All(), s.out);
    assert s.out[0] in SortedDistinct(s.out);
    var cs := SortedDistinct(s.out);
    forall i | 0 <= i < |cs| && Parsed(spec).value.mode != Block
      ensures cs[i].IsAes()
    {
      assert cs[i] in s.out;
    }
  }

  // -------------------------------------------------------------- Poly1305

  /** The token selects a Poly1305 arm. */
  ghost predicate IsPolyToken(table: seq<Entry>, t: Token) {
    var e := Lookup(table, t.name, t.mode);
    e.Some? && e.value.poly1305
  }

  /** From a Poly1305 token on, the mode is GCM and a stream cipher is in the list. */
  lemma {:induction false} Poly1305Sticks(table: seq<Entry>, ts: seq<Token>, i: nat, k: nat)
    requires PolyIsStream(table)
    requires i < k <= |ts| && IsPolyToken(table, ts[i]) && Fold(table, ts, k).Ok?
    ensures Fold(table, ts, k).value.mode == Some(Gcm)
    ensures exists c :: c in Fold(table, ts, k).value.out && !c.IsAes()
    decreases k
  {
    var out := Fold(table, ts, k).value.out;
    if i == k - 1 {
      assert out[|out| - 1] in out;
    } else {
      Poly1305Sticks(table, ts, i, k - 1);
      var c :| c in Fold(table, ts, k - 1).value.out && !c.IsAes();
      assert c in out;
    }
  }

  lemma PolyListFails(table: seq<Entry>, ts: seq<Token>, i: nat)
    requires PolyIsStream(table) && i < |ts| && IsPolyToken(table, ts[i])
    ensures Fold(table, ts, |ts|).Ok? ==> Finish(Fold(table, ts, |ts|).value).Err?
  {
    if Fold(table, ts, |ts|).Ok? {
      Poly1305Sticks(table, ts, i, |ts|);
      var out := Fold(table, ts, |ts|).value.out;
      var c :| c in out && !c.IsAes();
      var j :| 0 <= j < |out| && out[j] == c;
    }
  }

  /** A list with a Poly1305 token is always rejected. */
  lemma Poly1305IsRejected(spec: string, i: nat)
    requires i < |Parts(spec)| && ReadToken(Parts(spec)[i]).name in PolyNames()
    ensures Parsed(spec).Err?
  {
    var t := ReadToken(Parts(spec)[i]);
    TableDescribed();
    PolyLookup(Table(), t.name, t.mode);
    PolyListFails(Table(), ReadAll(Parts(spec)), i);
  }

  // ---------------------------------------------------- facts about the table

  ghost predicate Distinct(table: seq<Entry>) {
    forall i, j :: 0 <= i < j < |table| ==> table[i].name != table[j].name
  }

  /** A Poly1305 arm adds a stream cipher. */
  ghost predicate PolyIsStream(table: seq<Entry>) {
    forall i :: 0 <= i < |table| && table[i].poly1305 ==> |table[i].ciphers| == 1 && !table[i].ciphers[0].IsAes()
  }

  /** Where a cipher's own label stands in the table. */
  function LabelIndex(c: CipherChoice): nat {
    match c
    case Aes128 => 0
    case Aes192 => 2
    case Aes256 => 4
    case ChaCha20 => 7
    case XChaCha20 => 9
    case Des => 15
    case TdesEde3 => 17
    case Sm4 => 19
  }

  function PolyNames(): seq<string> {
    ["chacha20poly1305", "chacha20-poly1305", "xchacha20poly1305", "xchacha20-poly1305"]
  }

  /** What the lemmas below need of the table. */
  ghost predicate Described(table: seq<Entry>) {
    && |table| == 21
    && Distinct(table)
    && PolyIsStream(table)
    && (forall c: CipherChoice :: table[LabelIndex(c)] == Entry(c.Label(), [c], !c.IsAes() && !c.IsStream(), false))
    && (forall i :: 0 <= i < 4 ==>
          table[11 + i].name == PolyNames()[i] && table[11 + i].poly1305 && !table[11 + i].blockOnly)
    && table[20] == Entry("all", All(), true, false)
  }

  lemma {:induction false} LookupAt(table: seq<Entry>, i: nat, mode: CipherMode)
    requires Distinct(table) && i < |table| && (table[i].blockOnly ==> mode == Block)
    ensures Lookup(table, table[i].name, mode) == Some(table[i])
  {
    if i != 0 {
      LookupAt(table[1..], i - 1, mode);
    }
  }

  lemma PolyLookup(table: seq<Entry>, name: string, mode: CipherMode)
    requires Described(table) && name in PolyNames()
    ensures Lookup(table, name, mode).Some? && Lookup(table, name, mode).value.poly1305
  {
    var i :| 0 <= i < 4 && PolyNames()[i] == name;
    LookupAt(table, 11 + i, mode);
  }

  /** The position of a name in the table, from its length and four of its characters. */
  function Position(name: string): nat
    requires |name| >= 3
  {
    match |name|
    case 3 => if name[0] == 'd' then 15 else if name[0] == 's' then 19 else if name[1] == 'l' then 20 else 6
    case 4 => if name[0] == 't' then 18 else 16
    case 6 => if name[0] == 'c' then 8 else if name[5] == '8' then 1 else if name[5] == '2' then 3 else 5
    case 7 => if name[0] == 'x' then 10 else if name[5] == '2' then 0 else if name[5] == '9' then 2 else 4
    case 8 => 7
    case 9 => if name[0] == 'x' then 9 else 17
    case 16 => 11
    case 17 => if name[0] == 'c' then 12 else 13
    case _ => 14
  }

  lemma PositionsAreRight(i: nat)
    requires i < |Table()|
    ensures |Table()[i].name| >= 3 && Position(Table()[i].name) == i
  {}

  lemma NamesAreDistinct()
    ensures Distinct(Table())
  {
    forall i, j | 0 <= i < j < |Table()|
      ensures Table()[i].name != Table()[j].name
    {
      PositionsAreRight(i);
      PositionsAreRight(j);
    }
  }

  lemma LabelsAreInPlace(c: CipherChoice)
    ensures LabelIndex(c) < |Table()|
    ensures Table()[LabelIndex(c)] == Entry(c.Label(), [c], !c.IsAes() && !c.IsStream(), false)
  {}

  lemma PolyNamesAreInPlace()
    ensures |Table()| == 21 && PolyIsStream(Table()) && Table()[20] == Entry("all", All(), true, false)
    ensures forall i :: 0 <= i < 4 ==>
      Table()[11 + i].name == PolyNames()[i] && Table()[11 + i].poly1305 && !Table()[11 + i].blockOnly
  {}

  lemma TableDescribed()
    ensures Described(Table())
  {
    NamesAreDistinct();
    PolyNamesAreInPlace();
    forall c: CipherChoice
      ensures Table()[LabelIndex(c)] == Entry(c.Label(), [c], !c.IsAes() && !c.IsStream(), false)
    {
      LabelsAreInPlace(c);
    }
  }

  // ------------------------------------------------------------- round trip

  function Suffix(mode: CipherMode): string {
    match mode
    case Block => ""
    case Ctr => "-ctr"
    case Gcm => "-gcm"
  }

  function PrintToken(c: CipherChoice, mode: CipherMode): string {
    c.Label() + Suffix(mode)
  }

  function PrintTokens(cs: seq<CipherChoice>, mode: CipherMode): (ts: seq<string>)
    ensures |ts| == |cs|
  {
    seq(|cs|, i requires 0 <= i < |cs| => PrintToken(cs[i], mode))
  }

  /** The labels with the mode suffix, separated by commas. */
  function Print(s: Selection): string
    requires s.ciphers != []
  {
    Join(PrintTokens(s.ciphers, s.mode))
  }

  /** Neither a comma, nor white space, nor an upper-case letter. */
  predicate IsPlainChar(c: char) {
    c != ',' && !IsWhitespace(c) && !('A' <= c <= 'Z')
  }

  ghost predicate Plain(s: string) {
    s != "" && forall c :: c in s ==> IsPlainChar(c)
  }

  lemma PlainIsTidy(s: string)
    requires Plain(s)
    ensures Trim(s) == s && Lower(s) == s
  {
    assert s[0] in s && s[|s| - 1] in s;
    forall i | 0 <= i < |s|
      ensures Lower(s)[i] == s[i]
    {
      assert s[i] in s;
    }
  }

  lemma {:induction false} SplitPrefix(a: string, s: string)
    requires forall c :: c in a ==> c != ','
    ensures Split(a + s) == [a + Split(s)[0]] + Split(s)[1..]
  {
    if a == [] {
      assert a + s == s;
      assert a + Split(s)[0] == Split(s)[0];
    } else {
      assert forall c :: c in a[1..] ==> c in a;
      SplitPrefix(a[1..], s);
      assert (a + s)[1..] == a[1..] + s;
      assert a[0] in a;
      assert [a[0]] + (a[1..] + Split(s)[0]) == a + Split(s)[0];
    }
  }

  ghost predicate AllPlain(parts: seq<string>) {
    forall i :: 0 <= i < |parts| ==> Plain(parts[i])
  }

  lemma {:induction false} SplitJoin(parts: seq<string>)
    requires parts != [] && AllPlain(parts)
    ensures Split(Join(parts)) == parts
  {
    assert Plain(parts[0]);
    if |parts| == 1 {
      SplitPrefix(parts[0], "");
      assert parts[0] + "" == parts[0];
    } else {
      SplitJoin(parts[1..]);
      var rest := "," + Join(parts[1..]);
      assert rest[1..] == Join(parts[1..]);
      SplitPrefix(parts[0], rest);
      assert parts[0] + "," + Join(parts[1..]) == parts[0] + rest;
      assert parts[0] + "" == parts[0];
    }
  }

  lemma {:induction false} TidyPlain(parts: seq<string>)
    requires AllPlain(parts)
    ensures Tidy(parts) == parts
  {
    if parts != [] {
      PlainIsTidy(parts[0]);
      TidyPlain(parts[1..]);
    }
  }

  lemma LabelIsPlain(c: CipherChoice)
    ensures Plain(c.Label())
    ensures |c.Label()| >= 3
  {
    match c
    case Aes128 => case Aes192 => case Aes256 => case Des =>
    case TdesEde3 => case Sm4 => case ChaCha20 => case XChaCha20 =>
  }

  lemma TokenIsPlain(c: CipherChoice, mode: CipherMode)
    ensures Plain(PrintToken(c, mode))
  {
    LabelIsPlain(c);
    forall x | x in PrintToken(c, mode)
      ensures IsPlainChar(x)
    {
      assert x in c.Label() || x in Suffix(mode);
    }
  }

  lemma NotSuffix(s: string, suffix: string)
    requires s != [] && suffix != [] && s[|s| - 1] != suffix[|suffix| - 1]
    ensures !EndsWith(s, suffix)
  {
    if |suffix| <= |s| {
      assert s[|s| - |suffix|..][|suffix| - 1] == s[|s| - 1];
    }
  }

  lemma LabelEnd(c: CipherChoice)
    ensures |c.Label()| > 0
    ensures c.Label()[|c.Label()| - 1] != 'r' && c.Label()[|c.Label()| - 1] != 'm'
  {
    match c
    case Aes128 => case Aes192 => case Aes256 => case Des =>
    case TdesEde3 => case Sm4 => case ChaCha20 => case XChaCha20 =>
  }

  /** A printed token is taken apart again. */
  lemma TokenParts(c: CipherChoice, mode: CipherMode)
    ensures ModeOf(PrintToken(c, mode)) == mode
    ensures NameOf(PrintToken(c, mode)) == c.Label()
  {
    var t, l := PrintToken(c, mode), c.Label();
    assert t[|l|..] == Suffix(mode) && t[..|l|] == l;
    if mode == Block {
      LabelEnd(c);
      NotSuffix(t, "-ctr");
      NotSuffix(t, "-gcm");
    } else if mode == Gcm {
      NotSuffix(t, "-ctr");
    }
  }

  lemma LabelMeaning(table: seq<Entry>, c: CipherChoice, mode: CipherMode)
    requires Described(table) && (mode == Block || c.IsAes())
    ensures var e := Lookup(table, c.Label(), mode);
            e.Some? && e.value.ciphers == [c] && !e.value.poly1305
  {
    LookupAt(table, LabelIndex(c), mode);
  }

  lemma PrintedTokenIsRead(c: CipherChoice, mode: CipherMode)
    ensures ReadToken(PrintToken(c, mode)) == Token(c.Label(), mode)
  {
    TokenIsPlain(c, mode);
    PlainIsTidy(PrintToken(c, mode));
    TokenParts(c, mode);
  }

  /** The token adds exactly c, in that mode. */
  ghost predicate Adds(table: seq<Entry>, t: Token, c: CipherChoice, mode: CipherMode) {
    && t.mode == mode
    && var e := Lookup(table, t.name, mode);
       e.Some? && e.value.ciphers == [c] && !e.value.poly1305
  }

  lemma {:induction false} FoldAdds(table: seq<Entry>, ts: seq<Token>, cs: seq<CipherChoice>, mode: CipherMode, k: nat)
    requires |ts| == |cs| && k <= |cs|
    requires forall i :: 0 <= i < |ts| ==> Adds(table, ts[i], cs[i], mode)
    ensures Fold(table, ts, k).Ok? && Fold(table, ts, k).value.out == cs[..k]
    ensures Fold(table, ts, k).value.mode == if k == 0 then None else Some(mode)
  {
    if k != 0 {
      FoldAdds(table, ts, cs, mode, k - 1);
      assert Adds(table, ts[k - 1], cs[k - 1], mode);
    }
  }

  lemma PartsOfPrint(s: Selection)
    requires s.ciphers != []
    ensures Parts(Print(s)) == PrintTokens(s.ciphers, s.mode)
  {
    var ts := PrintTokens(s.ciphers, s.mode);
    forall i | 0 <= i < |ts|
      ensures Plain(ts[i])
    {
      TokenIsPlain(s.ciphers[i], s.mode);
    }
    SplitJoin(ts);
    TidyPlain(ts);
  }

  lemma FoldOfPrint(table: seq<Entry>, s: Selection, ts: seq<Token>)
    requires Described(table) && WellFormed(s) && ts == ReadAll(PrintTokens(s.ciphers, s.mode))
    ensures Fold(table, ts, |ts|) == Ok(State(s.ciphers, Some(s.mode)))
  {
    forall i | 0 <= i < |ts|
      ensures Adds(table, ts[i], s.ciphers[i], s.mode)
    {
      PrintedTokenIsRead(s.ciphers[i], s.mode);
      LabelMeaning(table, s.ciphers[i], s.mode);
    }
    FoldAdds(table, ts, s.ciphers, s.mode, |ts|);
    assert s.ciphers[..|ts|] == s.ciphers;
  }

  /** Parsing inverts printing on every well-formed selection. */
  lemma ParseInvertsPrint(s: Selection)
    requires WellFormed(s)
    ensures Parsed(Print(s)) == Ok(s)
  {
    PartsOfPrint(s);
    TableDescribed();
    FoldOfPrint(Table(), s, ReadAll(PrintTokens(s.ciphers, s.mode)));
    SortedDistinctIsFixed(s.ciphers);
  }

  /** Every accepted list can be printed and parsed back to the same selection. */
  lemma AcceptedIsFixedPoint(spec: string)
    requires Parsed(spec).Ok?
    ensures Parsed(spec).value.ciphers != []
    ensures Parsed(Print(Parsed(spec).value)) == Parsed(spec)
  {
    AcceptedIsWellFormed(spec);
    ParseInvertsPrint(Parsed(spec).value);
  }

  // -------------------------------------------------------------- the token all

  /** A token adds its ciphers, and no later token removes them. */
  lemma {:induction false} TokenAdds(table: seq<Entry>, ts: seq<Token>, i: nat, k: nat, e: Entry)
    requires i < k <= |ts| && Fold(table, ts, k).Ok? && Lookup(table, ts[i].name, ts[i].mode) == Some(e)
    ensures forall c :: c in e.ciphers ==> c in Fold(table, ts, k).value.out
    decreases k
  {
    if i != k - 1 {
      TokenAdds(table, ts, i, k - 1, e);
    }
  }

  lemma AllEntry(table: seq<Entry>)
    requires Described(table)
    ensures Lookup(table, "all", Block) == Some(table[20])
  {
    LookupAt(table, 20, Block);
  }

  lemma AllFold(table: seq<Entry>, ts: seq<Token>, i: nat)
    requires Described(table) && i < |ts| && ts[i] == Token("all", Block) && Fold(table, ts, |ts|).Ok?
    ensures forall c :: c in All() ==> c in Fold(table, ts, |ts|).value.out
  {
    AllEntry(table);
    TokenAdds(table, ts, i, |ts|, table[20]);
  }

  lemma AllFinish(s: State)
    requires (forall c :: c in All() ==> c in s.out) && Finish(s).Ok?
    ensures Finish(s) == Ok(Selection(All(), Block))
  {
    AllIsEverything();
    PickIsExact(All(), s.out);
    SortedUnique(SortedDistinct(s.out), All());
    assert ChaCha20 in s.out;
  }

  /** An accepted list with the token `all` selects every cipher, in block mode. */
  lemma AllSelectsEverything(spec: string, i: nat)
    requires i < |Parts(spec)| && ReadToken(Parts(spec)[i]) == Token("all", Block)
    requires Parsed(spec).Ok?
    ensures Parsed(spec) == Ok(Selection(All(), Block))
  {
    var ts := ReadAll(Parts(spec));
    TableDescribed();
    AllFold(Table(), ts, i);
    AllFinish(Fold(Table(), ts, |ts|).value);
  }

  lemma SingleToken(s: string)
    requires Plain(s)
    ensures Parts(s) == [s]
  {
    SplitJoin([s]);
    TidyPlain([s]);
  }

  lemma AllToken()
    ensures Parts("all") == ["all"] && ReadToken("all") == Token("all", Block)
  {
    SingleToken("all");
    PlainIsTidy("all");
    assert "all"[2] == 'l';
    NotSuffix("all", "-ctr");
    NotSuffix("all", "-gcm");
  }

  lemma FoldSingle(table: seq<Entry>, t: Token, e: Entry)
    requires Lookup(table, t.name, t.mode) == Some(e) && !e.poly1305
    ensures Fold(table, [t], 1) == Ok(State(e.ciphers, Some(t.mode)))
  {
    assert Fold(table, [t], 0) == Ok(State([], None));
    assert [] + e.ciphers == e.ciphers;
  }

  lemma AllIsParsed(table: seq<Entry>, ts: seq<Token>)
    requires Described(table) && ts == [Token("all", Block)]
    ensures Fold(table, ts, |ts|).Ok? && Finish(Fold(table, ts, |ts|).value).Ok?
  {
    AllEntry(table);
    assert ts == [ts[0]];
    FoldSingle(table, ts[0], table[20]);
    assert Fold(table, ts, |ts|) == Ok(State(All(), Some(Block))) && |All()| == 8;
  }

  /** The list `all` itself is accepted. */
  lemma AllIsAccepted()
    ensures Parsed("all") == Ok(Selection(All(), Block))
  {
    AllToken();
    TableDescribed();
    AllIsParsed(Table(), ReadAll(Parts("all")));
    AllSelectsEverything("all", 0);
  }

  /** Each of the documented Poly1305 names is rejected as a list of its own. */
  lemma Poly1305NamesAreRejected(i: nat)
    requires i < 4
    ensures Parsed(PolyNames()[i]).Err?
  {
    var name := PolyNames()[i];
    PolyToken(name, i);
    Poly1305IsRejected(name, 0);
  }

  lemma PolyToken(name: string, i: nat)
    requires i < 4 && name == PolyNames()[i]
    ensures Parts(name) == [name] && ReadToken(name) == Token(name, Block)
  {
    PolyNameEnds(i);
    SingleToken(name);
    PlainIsTidy(name);
    NotSuffix(name, "-ctr");
    NotSuffix(name, "-gcm");
  }

  lemma PolyNameEnds(i: nat)
    requires i < 4
    ensures Plain(PolyNames()[i]) && PolyNames()[i][|PolyNames()[i]| - 1] == '5'
  {}

  // ------------------------------------------------------ when a list is accepted

  /** A token of a usable list in mode m. */
  ghost predicate Fits(table: seq<Entry>, t: Token, m: CipherMode) {
    && t.mode == m
    && var e := Lookup(table, t.name, m);
       e.Some? && !e.value.poly1305 && (m != Block ==> forall c :: c in e.value.ciphers ==> c.IsAes())
  }

  /** Non-empty, and every token fits one and the same mode. */
  ghost predicate Usable(table: seq<Entry>, ts: seq<Token>) {
    ts != [] && forall i :: 0 <= i < |ts| ==> Fits(table, ts[i], ts[0].mode)
  }

  lemma {:induction false} UsableFolds(table: seq<Entry>, ts: seq<Token>, m: CipherMode, k: nat)
    requires k <= |ts| && forall i :: 0 <= i < |ts| ==> Fits(table, ts[i], m)
    ensures Fold(table, ts, k).Ok? && Fold(table, ts, k).value.mode == if k == 0 then None else Some(m)
    ensures m != Block ==> forall c :: c in Fold(table, ts, k).value.out ==> c.IsAes()
  {
    if k != 0 {
      UsableFolds(table, ts, m, k - 1);
      assert Fits(table, ts[k - 1], m);
    }
  }

  /** Without Poly1305 tokens the mode never changes. */
  lemma {:induction false} FoldedFits(table: seq<Entry>, ts: seq<Token>, k: nat, i: nat)
    requires i < k <= |ts| && Fold(table, ts, k).Ok?
    requires forall j :: 0 <= j < k ==> !IsPolyToken(table, ts[j])
    ensures Fold(table, ts, k).value.mode == Some(ts[i].mode)
    ensures Lookup(table, ts[i].name, ts[i].mode).Some?
    ensures forall c :: c in Lookup(table, ts[i].name, ts[i].mode).value.ciphers ==> c in Fold(table, ts, k).value.out
    decreases k
  {
    if i != k - 1 {
      FoldedFits(table, ts, k - 1, i);
    } else if k >= 2 {
      FoldedFits(table, ts, k - 1, k - 2);
    }
  }

  lemma AcceptedFits(table: seq<Entry>, ts: seq<Token>, i: nat)
    requires PolyIsStream(table) && i < |ts| && Fold(table, ts, |ts|).Ok? && Finish(Fold(table, ts, |ts|).value).Ok?
    ensures Fits(table, ts[i], ts[0].mode)
  {
    forall j | 0 <= j < |ts|
      ensures !IsPolyToken(table, ts[j])
    {
      if IsPolyToken(table, ts[j]) {
        PolyListFails(table, ts, j);
      }
    }
    FoldedFits(table, ts, |ts|, i);
    FoldedFits(table, ts, |ts|, 0);
    var out := Fold(table, ts, |ts|).value.out;
    forall c | c in Lookup(table, ts[i].name, ts[i].mode).value.ciphers && ts[0].mode != Block
      ensures c.IsAes()
    {
      var j :| 0 <= j < |out| && out[j] == c;
    }
  }

  lemma UsableFinishes(table: seq<Entry>, ts: seq<Token>)
    requires Usable(table, ts) && forall i :: 0 <= i < |table| ==> table[i].ciphers != []
    ensures Fold(table, ts, |ts|).Ok? && Finish(Fold(table, ts, |ts|).value).Ok?
  {
    UsableFolds(table, ts, ts[0].mode, |ts|);
    var e := Lookup(table, ts[0].name, ts[0].mode).value;
    assert Fits(table, ts[0], ts[0].mode);
    TokenAdds(table, ts, 0, |ts|, e);
    assert e.ciphers[0] in Fold(table, ts, |ts|).value.out;
    var out := Fold(table, ts, |ts|).value.out;
    assert forall i :: 0 <= i < |out| ==> out[i] in out;
  }

  lemma EntriesAreNotEmpty()
    ensures forall i :: 0 <= i < |Table()| ==> Table()[i].ciphers != []
  {}

  lemma FinishedIffUsable(table: seq<Entry>, ts: seq<Token>)
    requires PolyIsStream(table) && forall i :: 0 <= i < |table| ==> table[i].ciphers != []
    ensures Fold(table, ts, |ts|).Ok? && Finish(Fold(table, ts, |ts|).value).Ok? <==> Usable(table, ts)
  {
    if Fold(table, ts, |ts|).Ok? && Finish(Fold(table, ts, |ts|).value).Ok? {
      forall i | 0 <= i < |ts|
        ensures Fits(table, ts[i], ts[0].mode)
      {
        AcceptedFits(table, ts, i);
      }
    }
    if Usable(table, ts) {
      UsableFinishes(table, ts);
    }
  }

  /**
   * A list is accepted if and only if it has a token, every token is known and none a Poly1305
   * one, all select the same mode, and outside block mode all are AES.
   */
  lemma AcceptedIff(spec: string)
    ensures Parsed(spec).Ok? <==> Usable(Table(), ReadAll(Parts(spec)))
  {
    TableDescribed();
    EntriesAreNotEmpty();
    FinishedIffUsable(Table(), ReadAll(Parts(spec)));
  }
}
