/** The check filter of clang-tidy (clang-tools-extra/clang-tidy/ClangTidyDiagnosticConsumer.cpp):
    a comma-separated list of globs, each compiled to the text of an extended regular
    expression.  `Matches` reads that text back as a regular expression; `GlobMatches` is what a
    glob means; the two are proved to agree.
  */
module GlobList {
  import opened Sequences

  // ----- what a glob means -----

  /** '*' stands for any string, every other character for itself. */
  ghost predicate GlobMatches(glob: string, s: string) {
    if glob == [] then s == []
    else if glob[0] == '*' then exists k :: 0 <= k <= |s| && GlobMatches(glob[1..], s[k..])
    else s != [] && s[0] == glob[0] && GlobMatches(glob[1..], s[1..])
  }

  // ----- regular expressions: anchored sequences of characters and dots, each maybe starred -----

  predicate IsMeta(c: char) {
    c in {'(', ')', '^', '$', '|', '*', '+', '?', '.', '[', ']', '\\', '{', '}'}
  }

  datatype Atom = Literal(c: char) | AnyChar {
    predicate Accepts(x: char) {
      AnyChar? || c == x
    }
  }

  datatype Item = Item(atom: Atom, starred: bool)

  predicate ItemsMatch(items: seq<Item>, s: string)
    decreases |items| + |s|
  {
    if items == [] then s == []
    else if items[0].starred then
      || ItemsMatch(items[1..], s)
      || (s != [] && items[0].atom.Accepts(s[0]) && ItemsMatch(items, s[1..]))
    else s != [] && items[0].atom.Accepts(s[0]) && ItemsMatch(items[1..], s[1..])
  }

  /** Reads the text between the anchors: '\' quotes the next character, '.' is any character,
      a '*' after an atom stars it; any other bare metacharacter is outside this fragment. */
  function ParseItems(text: string): Option<seq<Item>>
    decreases |text|, 0
  {
    if text == [] then Some([])
    else if text[0] == '\\' then
      if |text| == 1 then None else ParseRest(Literal(text[1]), text[2..])
    else if text[0] == '.' then ParseRest(AnyChar, text[1..])
    else if IsMeta(text[0]) then None
    else ParseRest(Literal(text[0]), text[1..])
  }

  function ParseRest(atom: Atom, text: string): Option<seq<Item>>
    decreases |text|, 1
  {
    var starred := text != [] && text[0] == '*';
    match ParseItems(if starred then text[1..] else text)
    case None => None
    case Some(items) => Some([Item(atom, starred)] + items)
  }

  /** The expressions of the fragment that are anchored at both ends, as searched for in s. */
  predicate Matches(regex: string, s: string) {
    && |regex| >= 2 && regex[0] == '^' && regex[|regex| - 1] == '$'
    && var items := ParseItems(regex[1..|regex| - 1]);
       items.Some? && ItemsMatch(items.value, s)
  }

  // ----- the translation -----

  function Translated(c: char): string {
    if c == '*' then ".*" else if IsMeta(c) then ['\\', c] else [c]
  }

  function Body(glob: string): string {
    if glob == [] then [] else Body(glob[..|glob| - 1]) + Translated(glob[|glob| - 1])
  }

  function RegexText(glob: string): string {
    "^" + Body(glob) + "$"
  }

  function ItemOf(c: char): Item {
    if c == '*' then Item(AnyChar, true) else Item(Literal(c), false)
  }

  function ItemsOf(glob: string): seq<Item> {
    seq(|glob|, i requires 0 <= i < |glob| => ItemOf(glob[i]))
  }

  lemma {:induction false} BodyFromFront(glob: string)
    requires glob != []
    ensures Body(glob) == Translated(glob[0]) + Body(glob[1..])
  {
    var n := |glob| - 1;
    if n > 0 {
      BodyFromFront(glob[..n]);
      assert glob[..n][1..] == glob[1..][..n - 1];
    } else {
      assert glob[1..] == [];
      assert Body(glob[..n]) == [];
    }
  }

  lemma {:induction false} BodyDoesNotStartStarred(glob: string)
    ensures Body(glob) != [] ==> Body(glob)[0] != '*'
  {
    if glob != [] {
      BodyFromFront(glob);
    }
  }

  lemma {:induction false} BodyParses(glob: string)
    ensures ParseItems(Body(glob)) == Some(ItemsOf(glob))
  {
    if glob == [] {
    } else {
      var c, rest := glob[0], Body(glob[1..]);
      BodyFromFront(glob);
      BodyParses(glob[1..]);
      BodyDoesNotStartStarred(glob[1..]);
      assert ItemsOf(glob) == [ItemOf(c)] + ItemsOf(glob[1..]);
      var text := Translated(c) + rest;
      if c == '*' {
        assert text[1..] == "*" + rest && text[1..][1..] == rest;
        assert ParseItems(text) == ParseRest(AnyChar, text[1..]);
      } else if IsMeta(c) {
        assert text[2..] == rest;
        assert ParseItems(text) == ParseRest(Literal(c), rest);
      } else {
        assert c != '\\' && c != '.';
        assert text[1..] == rest;
        assert ParseItems(text) == ParseRest(Literal(c), rest);
      }
    }
  }

  lemma {:induction false} StarSkips(items: seq<Item>, s: string, k: nat)
    requires items != [] && items[0] == Item(AnyChar, true) && k <= |s|
    requires ItemsMatch(items[1..], s[k..])
    ensures ItemsMatch(items, s)
  {
    if k > 0 {
      assert s[1..][k - 1..] == s[k..];
      StarSkips(items, s[1..], k - 1);
    } else {
      assert s[k..] == s;
    }
  }

  lemma {:induction false} StarFound(items: seq<Item>, s: string) returns (k: nat)
    requires items != [] && items[0] == Item(AnyChar, true) && ItemsMatch(items, s)
    ensures k <= |s| && ItemsMatch(items[1..], s[k..])
    decreases |s|
  {
    if ItemsMatch(items[1..], s) {
      k := 0;
      assert s[0..] == s;
    } else {
      k := StarFound(items, s[1..]);
      k := k + 1;
      assert s[1..][k - 1..] == s[k..];
    }
  }

  lemma {:induction false} ItemsMeanGlob(glob: string, s: string)
    ensures ItemsMatch(ItemsOf(glob), s) <==> GlobMatches(glob, s)
    decreases |glob|
  {
    if glob == [] {
    } else {
      var items, rest := ItemsOf(glob), glob[1..];
      assert items[1..] == ItemsOf(rest);
      if glob[0] == '*' {
        if ItemsMatch(items, s) {
          var k := StarFound(items, s);
          ItemsMeanGlob(rest, s[k..]);
        }
        if GlobMatches(glob, s) {
          var k :| 0 <= k <= |s| && GlobMatches(rest, s[k..]);
          ItemsMeanGlob(rest, s[k..]);
          StarSkips(items, s, k);
        }
      } else if s != [] {
        ItemsMeanGlob(rest, s[1..]);
      }
    }
  }

  /** The regular expression of a glob matches exactly the strings that the glob matches. */
  lemma TranslationPreservesMatching(glob: string, s: string)
    ensures Matches(RegexText(glob), s) <==> GlobMatches(glob, s)
  {
    var text := RegexText(glob);
    assert text[1..|text| - 1] == Body(glob);
    BodyParses(glob);
    ItemsMeanGlob(glob, s);
  }

  // ----- the list -----

  datatype Entry = Entry(positive: bool, glob: string) {
    ghost predicate Applies(s: string) {
      GlobMatches(glob, s)
    }
  }

  function FirstComma(text: string): (n: nat)
    ensures n <= |text|
  {
    if text == [] || text[0] == ',' then 0 else 1 + FirstComma(text[1..])
  }

  lemma {:induction false} FirstCommaIsFirst(text: string)
    ensures forall i :: 0 <= i < FirstComma(text) ==> text[i] != ','
    ensures FirstComma(text) < |text| ==> text[FirstComma(text)] == ','
  {
    if text == [] || text[0] == ',' {
    } else {
      FirstCommaIsFirst(text[1..]);
      forall i | 0 <= i < FirstComma(text) ensures text[i] != ',' {
        assert i > 0 ==> text[i] == text[1..][i - 1];
      }
    }
  }

  function Unsigned(text: string): string {
    if text != [] && text[0] == '-' then text[1..] else text
  }

  function AfterComma(text: string): (rest: string)
    ensures |rest| < |text| || rest == []
  {
    var n := FirstComma(text);
    if n < |text| then text[n + 1..] else []
  }

  function FirstEntry(text: string): Entry {
    Entry(text == [] || text[0] != '-', Unsigned(text)[..FirstComma(Unsigned(text))])
  }

  /** The entries that a filter text stands for; a trailing comma adds none. */
  function Entries(text: string): seq<Entry> {
    var rest := AfterComma(Unsigned(text));
    [FirstEntry(text)] + if rest == [] then [] else Entries(rest)
  }

  /** The sign of the last entry that applies to s. */
  ghost function LastMatch(entries: seq<Entry>, s: string): Option<bool> {
    if entries == [] then None
    else
      var e := entries[|entries| - 1];
      if e.Applies(s) then Some(e.positive) else LastMatch(entries[..|entries| - 1], s)
  }

  ghost predicate Enabled(text: string, s: string) {
    LastMatch(Entries(text), s) == Some(true)
  }

  datatype GlobList = GlobList(positive: bool, regex: string, next: Option<GlobList>) {
    predicate Contains(s: string, contains: bool) {
      var contains' := if Matches(regex, s) then positive else contains;
      match next
      case None => contains'
      case Some(n) => n.Contains(s, contains')
    }

    /** The list holds these entries, in this order. */
    predicate Holds(entries: seq<Entry>)
      decreases |entries|
    {
      && entries != []
      && positive == entries[0].positive && regex == RegexText(entries[0].glob)
      && (if |entries| == 1 then next == None else next.Some? && next.value.Holds(entries[1..]))
    }
  }

  lemma {:induction false} LastMatchFromFront(entries: seq<Entry>, s: string)
    requires entries != []
    ensures LastMatch(entries, s) ==
      if LastMatch(entries[1..], s).Some? then LastMatch(entries[1..], s)
      else if entries[0].Applies(s) then Some(entries[0].positive) else None
  {
    var n := |entries| - 1;
    if n == 0 {
    } else {
      LastMatchFromFront(entries[..n], s);
      assert entries[..n][1..] == entries[1..][..n - 1];
    }
  }

  lemma {:induction false} LastMatchConcat(a: seq<Entry>, b: seq<Entry>, s: string)
    ensures LastMatch(a + b, s) == if LastMatch(b, s).Some? then LastMatch(b, s) else LastMatch(a, s)
  {
    if b == [] {
      assert a + b == a;
    } else {
      var n := |b| - 1;
      assert (a + b)[..|a + b| - 1] == a + b[..n];
      LastMatchConcat(a, b[..n], s);
    }
  }

  /** The recursive walk returns the sign of the last matching glob, or what it was given. */
  lemma {:induction false} ContainsIsLastMatch(g: GlobList, entries: seq<Entry>, s: string, contains: bool)
    requires g.Holds(entries)
    ensures g.Contains(s, contains) ==
      match LastMatch(entries, s) case Some(sign) => sign case None => contains
    decreases |entries|
  {
    TranslationPreservesMatching(entries[0].glob, s);
    LastMatchFromFront(entries, s);
    if |entries| == 1 {
    } else {
      var contains' := if Matches(g.regex, s) then g.positive else contains;
      ContainsIsLastMatch(g.next.value, entries[1..], s, contains');
    }
  }

  // ----- building the list -----

  method ConsumeNegativeIndicator(globs: string) returns (negative: bool, rest: string)
    ensures negative <==> globs != [] && globs[0] == '-'
    ensures rest == Unsigned(globs)
  {
    if 0 < |globs| && globs[0] == '-' {
      return true, globs[1..];
    }
    return false, globs;
  }

  /** StringRef::substr: positions beyond the end are clamped to it. */
  function Substr(s: string, start: nat): string {
    if start <= |s| then s[start..] else []
  }

  lemma BodyGrows(glob: string, i: nat)
    requires i < |glob|
    ensures Body(glob[..i + 1]) == Body(glob[..i]) + Translated(glob[i])
  {
    assert glob[..i + 1][..i] == glob[..i];
  }

  lemma PushedTranslation(text: string, c: char)
    ensures text + Translated(c) ==
      (if c == '*' then text + "." else if IsMeta(c) then text + "\\" else text) + [c]
  {
    if c == '*' {
      assert text + "." + [c] == text + ".*";
    } else if IsMeta(c) {
      assert text + "\\" + [c] == text + ['\\', c];
    }
  }

  method Compile(glob: string) returns (regex: string)
    ensures regex == RegexText(glob)
  {
    regex := "^";
    var i := 0;
    while i < |glob|
      invariant 0 <= i <= |glob|
      invariant regex == "^" + Body(glob[..i])
    {
      var c := glob[i];
      BodyGrows(glob, i);
      PushedTranslation(regex, c);
      assert regex + Translated(c) == "^" + Body(glob[..i + 1]);
      if c == '*' {
        regex := regex + ".";
      } else if IsMeta(c) {
        regex := regex + "\\";
      }
      regex := regex + [c];
      i := i + 1;
    }
    assert glob[..i] == glob;
    regex := regex + "$";
  }

  method ConsumeGlob(globs: string) returns (regex: string, rest: string)
    ensures regex == RegexText(globs[..FirstComma(globs)])
    ensures rest == AfterComma(globs)
  {
    var glob := globs[..FirstComma(globs)];
    rest := Substr(globs, |glob| + 1);
    regex := Compile(glob);
  }

  method Build(globs: string) returns (g: GlobList)
    ensures g.Holds(Entries(globs))
    decreases |globs|
  {
    var negative, unsigned := ConsumeNegativeIndicator(globs);
    var regex, rest := ConsumeGlob(unsigned);
    if rest == [] {
      g := GlobList(!negative, regex, None);
    } else {
      var next := Build(rest);
      assert Entries(globs)[1..] == Entries(rest);
      g := GlobList(!negative, regex, Some(next));
    }
  }

  // ----- the entries, said of the text alone -----

  /** The pieces with commas between them. */
  function Joined(pieces: seq<string>): string
    requires pieces != []
  {
    if |pieces| == 1 then pieces[0] else pieces[0] + "," + Joined(pieces[1..])
  }

  /** The text cut at all its commas. */
  ghost predicate CutAtCommas(text: string, pieces: seq<string>) {
    pieces != [] && Joined(pieces) == text && forall i :: 0 <= i < |pieces| ==> ',' !in pieces[i]
  }

  /** A piece that starts with a minus sign is negative, with the rest as its glob. */
  function EntryOf(piece: string): Entry {
    if piece != [] && piece[0] == '-' then Entry(false, piece[1..]) else Entry(true, piece)
  }

  /** One entry for every piece, but none for an empty one behind the last comma. */
  function EntriesOf(pieces: seq<string>): seq<Entry>
    requires pieces != []
  {
    if |pieces| == 1 then [EntryOf(pieces[0])]
    else if |pieces| == 2 && pieces[1] == [] then [EntryOf(pieces[0])]
    else [EntryOf(pieces[0])] + EntriesOf(pieces[1..])
  }

  lemma {:induction false} EntriesInOrder(pieces: seq<string>)
    requires pieces != []
    ensures var n := if |pieces| > 1 && pieces[|pieces| - 1] == [] then |pieces| - 1 else |pieces|;
      |EntriesOf(pieces)| == n && forall i :: 0 <= i < n ==> EntriesOf(pieces)[i] == EntryOf(pieces[i])
  {
    hide EntryOf;
    if |pieces| == 1 || (|pieces| == 2 && pieces[1] == []) {
    } else {
      EntriesInOrder(pieces[1..]);
      assert pieces[1..][|pieces| - 2] == pieces[|pieces| - 1];
    }
  }

  /** Cutting is possible in one way only: the first piece ends at the first comma. */
  lemma FirstPiece(text: string, pieces: seq<string>)
    requires CutAtCommas(text, pieces)
    ensures FirstComma(text) == |pieces[0]| && text[..|pieces[0]|] == pieces[0]
    ensures |pieces| == 1 <==> |pieces[0]| == |text|
    ensures |pieces| > 1 ==> CutAtCommas(text[|pieces[0]| + 1..], pieces[1..])
  {
    var n := |pieces[0]|;
    FirstCommaIsFirst(text);
    assert forall i :: 0 <= i < n ==> text[i] == pieces[0][i];
    if |pieces| > 1 {
      assert text[n] == ',' && text[..n] == pieces[0] && text[n + 1..] == Joined(pieces[1..]);
    }
  }

  lemma {:induction false} CutExists(text: string) returns (pieces: seq<string>)
    ensures CutAtCommas(text, pieces)
    decreases |text|
  {
    var n := FirstComma(text);
    FirstCommaIsFirst(text);
    if n == |text| {
      return [text];
    } else {
      var rest := CutExists(text[n + 1..]);
      pieces := [text[..n]] + rest;
      assert pieces[1..] == rest;
      assert text == text[..n] + "," + text[n + 1..];
    }
  }

  /** Taking off a minus sign first and cutting then gives the same first entry and the same rest. */
  lemma UnsignedFirst(text: string)
    ensures FirstEntry(text) == EntryOf(text[..FirstComma(text)])
    ensures AfterComma(Unsigned(text)) == AfterComma(text)
  {
    if text != [] && text[0] == '-' {
      MinusFirst(text);
      var n := FirstComma(text);
      hide FirstComma, AfterComma;
      SlicesBehind(text, n);
      if n < |text| {
        AfterCommaIs(text, n);
        AfterCommaIs(text[1..], n - 1);
      } else {
        NoCommaNoRest(text);
        NoCommaNoRest(text[1..]);
      }
    }
  }

  lemma MinusFirst(text: string)
    requires text != [] && text[0] == '-'
    ensures FirstComma(text) == 1 + FirstComma(text[1..])
  {
  }

  lemma SlicesBehind(text: string, n: nat)
    requires 1 <= n <= |text|
    ensures text[..n][1..] == text[1..][..n - 1]
    ensures n < |text| ==> text[n + 1..] == text[1..][n..]
  {
  }

  lemma AfterCommaIs(text: string, n: nat)
    requires FirstComma(text) == n < |text|
    ensures AfterComma(text) == text[n + 1..]
  {
  }

  lemma NoCommaNoRest(text: string)
    requires FirstComma(text) == |text|
    ensures AfterComma(text) == []
  {
  }

  /** The entries that are built from a text are those of its pieces. */
  lemma {:induction false} EntriesArePieces(text: string, pieces: seq<string>)
    requires CutAtCommas(text, pieces)
    ensures Entries(text) == EntriesOf(pieces)
    decreases |pieces|
  {
    FirstPiece(text, pieces);
    UnsignedFirst(text);
    if |pieces| == 1 {
    } else {
      var rest := text[|pieces[0]| + 1..];
      assert AfterComma(text) == rest;
      EmptyCut(rest, pieces[1..]);
      EntriesArePieces(rest, pieces[1..]);
    }
  }

  lemma EmptyCut(text: string, pieces: seq<string>)
    requires CutAtCommas(text, pieces)
    ensures text == [] <==> pieces == [[]]
  {
  }

  /** Some entry matches the name and is positive, and no later one matches. */
  ghost predicate LastMatchIs(entries: seq<Entry>, s: string, sign: bool) {
    exists k :: 0 <= k < |entries| && GlobMatches(entries[k].glob, s) && entries[k].positive == sign
      && forall j :: k < j < |entries| ==> !GlobMatches(entries[j].glob, s)
  }

  lemma {:induction false} LastMatchFound(entries: seq<Entry>, s: string, sign: bool)
    ensures LastMatch(entries, s) == Some(sign) <==> LastMatchIs(entries, s, sign)
  {
    if entries == [] {
    } else {
      var n := |entries| - 1;
      if GlobMatches(entries[n].glob, s) {
      } else {
        LastMatchFound(entries[..n], s, sign);
        LastMatchBefore(entries, s, sign);
      }
    }
  }

  lemma LastMatchBefore(entries: seq<Entry>, s: string, sign: bool)
    requires entries != [] && !GlobMatches(entries[|entries| - 1].glob, s)
    ensures LastMatchIs(entries, s, sign) <==> LastMatchIs(entries[..|entries| - 1], s, sign)
  {
    hide GlobMatches;
    var n := |entries| - 1;
    var before := entries[..n];
    if LastMatchIs(before, s, sign) {
      var k :| 0 <= k < n && GlobMatches(before[k].glob, s) && before[k].positive == sign
        && forall j :: k < j < n ==> !GlobMatches(before[j].glob, s);
      assert forall j :: k <= j < n ==> entries[j] == before[j];
      assert LastMatchIs(entries, s, sign);
    }
    if LastMatchIs(entries, s, sign) {
      var k :| 0 <= k <= n && GlobMatches(entries[k].glob, s) && entries[k].positive == sign
        && forall j :: k < j <= n ==> !GlobMatches(entries[j].glob, s);
      assert forall j :: k <= j < n ==> before[j] == entries[j];
    }
  }

  /** A text enables a name exactly if the last piece whose glob matches it has no minus sign. */
  lemma EnabledByPieces(text: string, pieces: seq<string>, s: string)
    requires CutAtCommas(text, pieces)
    ensures Enabled(text, s) <==> LastMatchIs(EntriesOf(pieces), s, true)
  {
    EntriesArePieces(text, pieces);
    LastMatchFound(Entries(text), s, true);
  }

  // ----- what globs match -----

  lemma {:induction false} StarMatchesAll(s: string)
    ensures GlobMatches("*", s)
  {
    assert "*"[1..] == [] && s[|s|..] == [];
    assert GlobMatches("*"[1..], s[|s|..]);
  }

  /** A glob without stars matches itself alone. */
  lemma {:induction false} PlainGlob(glob: string, s: string)
    requires '*' !in glob
    ensures GlobMatches(glob, s) <==> s == glob
  {
    if glob == [] {
    } else if s != [] {
      PlainGlob(glob[1..], s[1..]);
      assert s == [s[0]] + s[1..] && glob == [glob[0]] + glob[1..];
    }
  }

  /** s can be cut at k so that the glob a matches what is before, and b what is behind. */
  ghost predicate CutFor(a: string, b: string, s: string, k: int) {
    0 <= k <= |s| && GlobMatches(a, s[..k]) && GlobMatches(b, s[k..])
  }

  /** A glob in two parts matches what can be cut into what the parts match. */
  lemma {:induction false} GlobInParts(a: string, b: string, s: string)
    ensures GlobMatches(a + b, s) <==> exists k :: CutFor(a, b, s, k)
    decreases |a|, 1
  {
    if a == [] {
      NoFirstPart(b, s);
      assert a + b == b;
    } else {
      assert (a + b)[1..] == a[1..] + b;
      if a[0] == '*' {
        StarInParts(a, b, s);
      } else if s != [] {
        GlobInParts(a[1..], b, s[1..]);
        CharInParts(a, b, s);
      }
    }
  }

  lemma NoFirstPart(b: string, s: string)
    ensures GlobMatches(b, s) <==> exists k :: CutFor([], b, s, k)
  {
    assert s[..0] == [] && s[0..] == s;
    if GlobMatches(b, s) {
      assert CutFor([], b, s, 0);
    }
  }

  lemma CharInParts(a: string, b: string, s: string)
    requires a != [] && a[0] != '*' && s != []
    requires GlobMatches(a[1..] + b, s[1..]) <==> exists k :: CutFor(a[1..], b, s[1..], k)
    ensures GlobMatches(a + b, s) <==> exists k :: CutFor(a, b, s, k)
  {
    assert (a + b)[1..] == a[1..] + b;
    if k :| CutFor(a, b, s, k) {
      assert k > 0 && s[..k][1..] == s[1..][..k - 1] && s[1..][k - 1..] == s[k..];
      assert CutFor(a[1..], b, s[1..], k - 1);
    }
    if GlobMatches(a + b, s) {
      var k :| CutFor(a[1..], b, s[1..], k);
      assert s[..k + 1][1..] == s[1..][..k] && s[1..][k..] == s[k + 1..];
      assert CutFor(a, b, s, k + 1);
    }
  }

  lemma StarMatches(glob: string, s: string, i: int)
    requires glob != [] && glob[0] == '*' && 0 <= i <= |s| && GlobMatches(glob[1..], s[i..])
    ensures GlobMatches(glob, s)
  {
  }

  lemma StarStandsFor(glob: string, s: string) returns (i: int)
    requires glob != [] && glob[0] == '*' && GlobMatches(glob, s)
    ensures 0 <= i <= |s| && GlobMatches(glob[1..], s[i..])
  {
    i :| 0 <= i <= |s| && GlobMatches(glob[1..], s[i..]);
  }

  lemma {:induction false} StarInParts(a: string, b: string, s: string)
    requires a != [] && a[0] == '*'
    ensures GlobMatches(a + b, s) <==> exists k :: CutFor(a, b, s, k)
    decreases |a|, 0
  {
    hide GlobMatches;
    assert (a + b)[1..] == a[1..] + b;
    if GlobMatches(a + b, s) {
      var i := StarStandsFor(a + b, s);
      GlobInParts(a[1..], b, s[i..]);
      var k :| CutFor(a[1..], b, s[i..], k);
      assert s[..i + k][i..] == s[i..][..k] && s[i..][k..] == s[i + k..];
      StarMatches(a, s[..i + k], i);
      assert CutFor(a, b, s, i + k);
    }
    if k :| CutFor(a, b, s, k) {
      var i := StarStandsFor(a, s[..k]);
      assert s[i..][..k - i] == s[..k][i..] && s[i..][k - i..] == s[k..];
      assert CutFor(a[1..], b, s[i..], k - i);
      GlobInParts(a[1..], b, s[i..]);
      StarMatches(a + b, s, i);
    }
  }

  /** GlobList::contains on a freshly built list. */
  method Filter(globs: string, s: string) returns (contains: bool)
    ensures contains <==> Enabled(globs, s)
    ensures forall pieces :: CutAtCommas(globs, pieces) ==> (contains <==> LastMatchIs(EntriesOf(pieces), s, true))
  {
    var g := Build(globs);
    ContainsIsLastMatch(g, Entries(globs), s, false);
    contains := g.Contains(s, false);
    forall pieces | CutAtCommas(globs, pieces) ensures contains <==> LastMatchIs(EntriesOf(pieces), s, true) {
      EnabledByPieces(globs, pieces, s);
    }
  }

  // ----- filters joined by a comma -----

  predicate EndsWithComma(text: string) {
    text != [] && text[|text| - 1] == ','
  }

  lemma {:induction false} CommaBeyond(text: string, more: string)
    ensures FirstComma(text + "," + more) == FirstComma(text)
  {
    if text == [] || text[0] == ',' {
    } else {
      assert (text + "," + more)[1..] == text[1..] + "," + more;
      CommaBeyond(text[1..], more);
    }
  }

  lemma TrailingComma(t: string)
    ensures AfterComma(t) != [] ==> (EndsWithComma(t) <==> EndsWithComma(AfterComma(t)))
    ensures AfterComma(t) == [] ==> (EndsWithComma(t) <==> FirstComma(t) < |t|)
  {
    FirstCommaIsFirst(t);
  }

  lemma DropFromJoined(t: string, b: string, n: nat)
    requires n <= |t|
    ensures (t + "," + b)[n + 1..] == if n == |t| then b else t[n + 1..] + "," + b
  {
  }

  function WithComma(t: string, b: string): (r: string)
    ensures |r| == |t| + 1 + |b|
  {
    t + "," + b
  }

  lemma CommaInside(t: string, b: string)
    ensures FirstComma(WithComma(t, b)) == FirstComma(t) <= |t|
    ensures FirstComma(t) == |t| ==> WithComma(t, b)[|t| + 1..] == b
    ensures FirstComma(t) < |t| ==> WithComma(t, b)[FirstComma(t) + 1..] == WithComma(t[FirstComma(t) + 1..], b)
  {
    hide FirstComma;
    CommaBeyond(t, b);
    DropFromJoined(t, b, FirstComma(t));
  }

  lemma AfterCommaInside(t: string, b: string)
    ensures AfterComma(WithComma(t, b)) ==
      if FirstComma(t) == |t| then b else WithComma(t[FirstComma(t) + 1..], b)
  {
    hide *;
    CommaInside(t, b);
    AfterCommaIs(WithComma(t, b), FirstComma(t));
  }

  lemma AfterCommaOfJoined(t: string, b: string)
    ensures FirstComma(t) == |t| ==> AfterComma(t + "," + b) == b
    ensures FirstComma(t) < |t| ==> AfterComma(t + "," + b) == t[FirstComma(t) + 1..] + "," + b
  {
    hide AfterComma, FirstComma;
    AfterCommaInside(t, b);
  }

  lemma FirstEntryOfJoined(a: string, b: string)
    requires a != []
    ensures FirstEntry(a + "," + b) == FirstEntry(a)
    ensures Unsigned(a + "," + b) == Unsigned(a) + "," + b
    ensures EndsWithComma(a) <==> EndsWithComma(Unsigned(a))
  {
    var t := Unsigned(a);
    assert Unsigned(a + "," + b) == t + "," + b;
    CommaBeyond(t, b);
    assert (t + "," + b)[..FirstComma(t)] == t[..FirstComma(t)];
  }

  /** What is left of a joined text after its first entry. */
  lemma RestOfJoined(a: string, b: string, rest: string)
    requires a != [] && rest == AfterComma(Unsigned(a))
    ensures FirstEntry(a + "," + b) == FirstEntry(a)
    ensures rest != [] ==> AfterComma(Unsigned(a + "," + b)) == rest + "," + b
    ensures rest == [] && EndsWithComma(a) ==> AfterComma(Unsigned(a + "," + b)) == "," + b
    ensures rest == [] && !EndsWithComma(a) ==> AfterComma(Unsigned(a + "," + b)) == b
    ensures rest != [] ==> (EndsWithComma(a) <==> EndsWithComma(rest))
  {
    FirstEntryOfJoined(a, b);
    AfterCommaOfJoined(Unsigned(a), b);
    TrailingComma(Unsigned(a));
    assert [] + "," + b == "," + b;
  }

  lemma EntriesAfterComma(b: string)
    ensures Entries("," + b) == [Entry(true, "")] + if b == [] then [] else Entries(b)
  {
    var e := "," + b;
    assert FirstComma(e) == 0 && Unsigned(e) == e && AfterComma(e) == b;
    assert FirstEntry(e) == Entry(true, "");
  }

  function JoinedTail(a: string, b: string): seq<Entry> {
    (if EndsWithComma(a) then [Entry(true, "")] else []) + (if b == [] then [] else Entries(b))
  }

  lemma EntriesStep(text: string, rest: string)
    requires rest == AfterComma(Unsigned(text))
    ensures Entries(text) == [FirstEntry(text)] + if rest == [] then [] else Entries(rest)
  {
  }

  lemma ConsConcat(e: Entry, x: seq<Entry>, y: seq<Entry>)
    ensures [e] + (x + y) == [e] + x + y
  {
  }

  lemma SameTail(a: string, rest: string, b: string)
    requires EndsWithComma(a) <==> EndsWithComma(rest)
    ensures JoinedTail(a, b) == JoinedTail(rest, b)
  {
  }

  /** The entries that the joined text adds, as the entries of the text that is left. */
  lemma TailEntries(a: string, b: string, more: string)
    requires more == if EndsWithComma(a) then "," + b else b
    ensures JoinedTail(a, b) == if more == [] then [] else Entries(more)
  {
    if EndsWithComma(a) {
      EntriesAfterComma(b);
    }
  }

  lemma JoinAfterLastEntry(a: string, b: string)
    requires a != [] && AfterComma(Unsigned(a)) == []
    ensures Entries(a + "," + b) == Entries(a) + JoinedTail(a, b)
  {
    var more := if EndsWithComma(a) then "," + b else b;
    var ab := a + "," + b;
    assert AfterComma(Unsigned(ab)) == more && FirstEntry(ab) == FirstEntry(a) by {
      RestOfJoined(a, b, []);
    }
    EntriesStep(a, []);
    EntriesStep(ab, more);
    TailEntries(a, b, more);
  }

  lemma JoinAfterFirstEntry(a: string, b: string, rest: string)
    requires a != [] && rest == AfterComma(Unsigned(a)) && rest != []
    requires Entries(rest + "," + b) == Entries(rest) + JoinedTail(rest, b)
    ensures Entries(a + "," + b) == Entries(a) + JoinedTail(a, b)
  {
    RestOfJoined(a, b, rest);
    assert rest + "," + b != [];
    EntriesStep(a, rest);
    EntriesStep(a + "," + b, rest + "," + b);
    ConsConcat(FirstEntry(a), Entries(rest), JoinedTail(rest, b));
    SameTail(a, rest, b);
  }

  /** A comma after a text that already ends with one adds an entry with the empty glob. */
  lemma {:induction false} EntriesOfJoined(a: string, b: string)
    requires a != []
    ensures Entries(a + "," + b) == Entries(a) + JoinedTail(a, b)
    decreases |a|
  {
    var rest := AfterComma(Unsigned(a));
    if rest == [] {
      JoinAfterLastEntry(a, b);
    } else {
      EntriesOfJoined(rest, b);
      JoinAfterFirstEntry(a, b, rest);
    }
  }
}
