/** The server's persisted state (state_manager.hpp): the version map and the replication map as text,
    printed and parsed line by line. */
module StateFiles {
  import opened Bytes
  import opened Frames
  import opened Keys
  import opened Text
  import opened Stores
  import opened VersionFiles

  /** Paths that survive: one line each, and not a comment. */
  predicate GoodPath(p: Path) { NewlineFree(p) && (p == [] || p[0] != HASH) }

  /** Node names that survive. */
  predicate GoodName(n: Name) {
    n != [] && CommaFree(n) && NewlineFree(n) && forall i | 0 <= i < |n| :: n[i] != SPACE
  }

  // ---- Version map ----------------------------------------------------------------------------------

  /** The path and the rest of a line, cut at its last space; None for lines that are skipped. */
  function CutLine(line: ByteString): (r: Option<(Path, ByteString)>)
    ensures r.Some? ==> line == r.value.0 + [SPACE] + r.value.1
    ensures r.Some? ==> forall i | 0 <= i < |r.value.1| :: r.value.1[i] != SPACE
    ensures r.Some? && NewlineFree(line) ==> GoodPath(r.value.0)
  {
    if line == [] || line[0] == HASH then None
    else
      match LastSpace(line)
      case None => None
      case Some(sp) => Some((line[..sp], line[sp + 1..]))
  }

  lemma CutLineOf(p: Path, rest: ByteString)
    requires GoodPath(p) && forall i | 0 <= i < |rest| :: rest[i] != SPACE
    ensures CutLine(p + [SPACE] + rest) == Some((p, rest))
  {
    LastSpaceOf(p, rest);
    var line := p + [SPACE] + rest;
    assert line[..|p|] == p && line[|p| + 1..] == rest;
  }

  /** What one line adds to the version map. */
  function VersionLine(m: map<Path, int>, line: ByteString): map<Path, int> {
    match CutLine(line)
    case None => m
    case Some((p, text)) =>
      match Stoi(text)
      case None => m
      case Some(v) => m[p := v]
  }

  function VersionLines(lines: seq<ByteString>): map<Path, int> {
    if lines == [] then map[] else VersionLine(VersionLines(lines[..|lines| - 1]), lines[|lines| - 1])
  }

  /** loadVersionMap as a function of the file's contents. */
  function LoadVersions(text: ByteString): map<Path, int> { VersionLines(Lines(text)) }

  lemma NoVersionLines()
    ensures VersionLines([]) == map[]
  {
  }

  lemma VersionLinesNext(lines: seq<ByteString>, i: nat)
    requires i < |lines|
    ensures VersionLines(lines[..i + 1]) == VersionLine(VersionLines(lines[..i]), lines[i])
  {
    assert lines[..i + 1][..i] == lines[..i];
  }

  method LoadVersionMap(text: ByteString) returns (m: map<Path, int>)
    ensures m == LoadVersions(text)
  {
    hide Stoi, Lines, VersionLines;
    m := map[];
    var lines := Lines(text);
    var i := 0;
    NoVersionLines();
    assert lines[..0] == [];
    while i < |lines|
      invariant 0 <= i <= |lines| && m == VersionLines(lines[..i])
    {
      var line := lines[i];
      VersionLinesNext(lines, i);
      i := i + 1;
      if line == [] || line[0] == HASH {
        continue;
      }
      var sp := LastSpace(line);
      if sp.None? {
        continue;
      }
      var v := Stoi(line[sp.value + 1..]);
      if v.None? {
        continue;
      }
      m := m[line[..sp.value] := v.value];
    }
    assert lines[..i] == lines;
  }

  lemma PrintedVersionLine(m: map<Path, int>, p: Path, v: int)
    requires GoodPath(p) && IsInt32(v)
    ensures VersionLine(m, PairText(p, v)) == m[p := v]
    ensures NewlineFree(PairText(p, v))
  {
    hide Stoi, CutLine;
    var text := IntText(v);
    CutLineOf(p, text);
    StoiOf(v);
  }

  lemma StoiOf(v: int)
    requires IsInt32(v)
    ensures Stoi(IntText(v)) == Some(v)
  {
    hide ReadInt;
    ReadIntOf(v, []);
    assert IntText(v) + [] == IntText(v);
  }

  /** One more printed line is one more entry. */
  lemma LoadVersionsSnoc(text: ByteString, p: Path, v: int)
    requires Terminated(text) && GoodPath(p) && IsInt32(v)
    ensures LoadVersions(text + PairText(p, v) + [NEWLINE]) == LoadVersions(text)[p := v]
  {
    hide PairText, Lines, VersionLine;
    var line := PairText(p, v);
    PrintedVersionLine(LoadVersions(text), p, v);
    LinesSnoc(text, line);
    var lines := Lines(text) + [line];
    assert lines[..|lines| - 1] == Lines(text);
  }

  /** Whatever a file says, the paths read from it are of the kind that survives. */
  lemma {:induction false} LoadedPathsAreGood(lines: seq<ByteString>)
    requires forall i | 0 <= i < |lines| :: NewlineFree(lines[i])
    ensures forall p | p in VersionLines(lines) :: GoodPath(p)
    ensures forall p | p in HolderLines(lines) :: GoodPath(p) && forall n | n in HolderLines(lines)[p] :: GoodName(n)
  {
    if lines != [] {
      var last := lines[|lines| - 1];
      LoadedPathsAreGood(lines[..|lines| - 1]);
      var r := CutLine(last);
      if r.Some? {
        NamesWellFormed(r.value.1);
        forall n | n in Names(r.value.1) ensures GoodName(n) {
          assert forall i | 0 <= i < |n| :: n[i] in last;
        }
      }
    }
  }

  /** The entries of these keys, in key order. */
  ghost function Printed(m: map<Path, int>, keys: set<Path>): (text: ByteString)
    requires keys <= m.Keys
    ensures Terminated(text)
    decreases keys
  {
    if keys == {} then []
    else
      var q := FirstOf(keys);
      EntryText(q, m[q]) + Printed(m, keys - {q})
  }

  /** The whole file. */
  ghost function VersionsText(m: map<Path, int>): ByteString { Printed(m, m.Keys) }

  lemma PrintedFirst(m: map<Path, int>, keys: set<Path>, q: Path)
    requires keys <= m.Keys && IsFirst(q, keys)
    ensures Printed(m, keys) == EntryText(q, m[q]) + Printed(m, keys - {q})
  {
    FirstUnique(q, FirstOf(keys), keys);
  }

  /** saveVersionMap: one line per entry, in key order. */
  method SaveVersionMap(m: map<Path, int>) returns (text: ByteString)
    ensures text == VersionsText(m)
  {
    hide Printed, EntryText, IsFirst;
    text := [];
    var todo := m.Keys;
    while todo != {}
      invariant todo <= m.Keys && VersionsText(m) == text + Printed(m, todo)
    {
      var p := First(todo);
      assert p in todo by { FirstIsIn(p, todo); }
      PrintedFirst(m, todo, p);
      assert text + (EntryText(p, m[p]) + Printed(m, todo - {p})) == text + EntryText(p, m[p]) + Printed(m, todo - {p});
      text := text + EntryText(p, m[p]);
      todo := todo - {p};
    }
    PrintedNone(m);
    assert text + [] == text;
  }

  /** Loading what was saved gives the map back exactly if every path is newline-free and does not start
      with '#'. */
  lemma SavedLoadsIff(m: map<Path, int>)
    requires forall p | p in m :: IsInt32(m[p])
    ensures LoadVersions(VersionsText(m)) == m <==> forall p | p in m :: GoodPath(p)
  {
    hide LoadVersions, Printed;
    if forall p | p in m :: GoodPath(p) {
      LoadNothing();
      LoadPrinted([], m, m.Keys);
      assert [] + Printed(m, m.Keys) == VersionsText(m);
    }
    if LoadVersions(VersionsText(m)) == m {
      LoadedFromText(VersionsText(m));
    }
  }

  lemma {:induction false} LoadPrinted(text: ByteString, m: map<Path, int>, keys: set<Path>)
    requires Terminated(text) && keys <= m.Keys && forall p | p in keys :: GoodPath(p) && IsInt32(m[p])
    ensures LoadVersions(text + Printed(m, keys)) == LoadVersions(text) + Part(m, keys)
    decreases keys
  {
    hide LoadVersions, GoodPath, PairText, IsFirst, Part;
    if keys == {} {
      assert text + [] == text;
      NoPart(LoadVersions(text), m);
    } else {
      var q := FirstOf(keys);
      assert q in keys by { FirstIsIn(q, keys); }
      var more := text + PairText(q, m[q]) + [NEWLINE];
      LoadVersionsSnoc(text, q, m[q]);
      LoadPrinted(more, m, keys - {q});
      assert text + Printed(m, keys) == more + Printed(m, keys - {q});
      PartFrom(LoadVersions(text), m, keys, q);
    }
  }

  function Part(m: map<Path, int>, keys: set<Path>): map<Path, int>
    requires keys <= m.Keys
  {
    map p | p in keys :: m[p]
  }

  lemma NoPart(a: map<Path, int>, m: map<Path, int>)
    ensures a + Part(m, {}) == a
  {
  }

  lemma PartFrom(a: map<Path, int>, m: map<Path, int>, keys: set<Path>, q: Path)
    requires keys <= m.Keys && q in keys
    ensures a[q := m[q]] + Part(m, keys - {q}) == a + Part(m, keys)
  {
  }

  lemma FirstIsIn(p: Path, keys: set<Path>)
    requires IsFirst(p, keys)
    ensures p in keys
  {
  }

  lemma PrintedNone(m: map<Path, int>)
    ensures Printed(m, {}) == []
  {
  }

  lemma LoadNothing()
    ensures LoadVersions([]) == map[] && LoadHolders([]) == map[]
  {
  }

  lemma LoadedFromText(text: ByteString)
    ensures forall p | p in LoadVersions(text) :: GoodPath(p)
    ensures forall p | p in LoadHolders(text) :: GoodPath(p) && forall n | n in LoadHolders(text)[p] :: GoodName(n)
  {
    LoadedPathsAreGood(Lines(text));
  }

  // ---- The same file, as FileManager reads it ------------------------------------------------------------

  /** What q's entry says of p. */
  function EntrySays(q: Path, v: int, p: Path): Option<int> { Lookup(Lines(EntryText(q, v)), p) }

  /** The keys whose entries read as p. */
  function Saying(m: map<Path, int>, keys: set<Path>, p: Path): set<Path> {
    set q | q in keys && q in m && EntrySays(q, m[q], p).Some?
  }

  /** The first of them decides. */
  lemma {:induction false} FirstEntryDecides(m: map<Path, int>, keys: set<Path>, p: Path)
    requires keys <= m.Keys
    ensures var says := Saying(m, keys, p);
            Lookup(Lines(Printed(m, keys)), p) ==
            if says == {} then None else EntrySays(FirstOf(says), m[FirstOf(says)], p)
    decreases keys
  {
    hide Lines, Lookup, EntryText, IsFirst;
    var says := Saying(m, keys, p);
    if keys == {} {
      NoLines();
      assert says == {};
      LookupNothing(p);
    } else {
      var q := FirstOf(keys);
      assert q in keys by { FirstIsIn(q, keys); }
      var rest := keys - {q};
      FirstEntryDecides(m, rest, p);
      LinesConcat(EntryText(q, m[q]), Printed(m, rest));
      LookupAppend(Lines(EntryText(q, m[q])), Lines(Printed(m, rest)), p);
      if EntrySays(q, m[q], p).Some? {
        FirstOfPart(q, says, keys);
      } else {
        assert Saying(m, rest, p) == says;
      }
    }
  }

  lemma LookupNothing(p: Path)
    ensures Lookup([], p) == None
  {
  }

  /** The first of all is the first of any part that it belongs to. */
  lemma FirstOfPart(q: Path, part: set<Path>, keys: set<Path>)
    requires IsFirst(q, keys) && q in part && part <= keys
    ensures FirstOf(part) == q
  {
    FirstUnique(q, FirstOf(part), part);
  }

  /** What getFileVersion reads about p in the file that saveVersionMap printed. */
  ghost function Told(m: map<Path, int>, p: Path): int { VersionIn(VersionsText(m), p) }

  /** The first entry that reads as p belongs to another path, which sorts before p, and has another version. */
  ghost predicate Shadowed(m: map<Path, int>, p: Path)
    requires p in m
  {
    exists q :: IsFirst(q, Saying(m, m.Keys, p)) && Before(q, p) && EntrySays(q, m[q], p) != Some(m[p])
  }

  /** p's own version is read back exactly if p is a word that is not shadowed; any other path reads as -1. */
  lemma ToldIff(m: map<Path, int>, p: Path)
    requires p in m && IsInt32(m[p])
    ensures Told(m, p) == m[p] <==> if IsWord(p) then !Shadowed(m, p) else m[p] == -1
  {
    hide Lines, Lookup, EntryText, Before, Printed, SpaceFree;
    var says := Saying(m, m.Keys, p);
    FirstEntryDecides(m, m.Keys, p);
    if IsWord(p) {
      EntryOfWord(p, m[p], p);
      assert p in says;
      var q := FirstOf(says);
      forall r | IsFirst(r, says) ensures r == q {
        FirstUnique(r, q, says);
      }
      BeforeOneWay(p, p);
    }
  }

  lemma EntryOfWord(q: Path, v: int, p: Path)
    requires IsWord(q) && IsInt32(v)
    ensures EntrySays(q, v, p) == if q == p then Some(v) else None
  {
    hide Lines, Lookup, PairText, SpaceFree;
    WordIsLine(q);
    PairTextLine(q, v);
    FirstLine(PairText(q, v), []);
    NoLines();
    assert EntryText(q, v) == PairText(q, v) + [NEWLINE] + [];
    assert Lines(EntryText(q, v)) == [PairText(q, v)] + [] == [PairText(q, v)];
    LookupOneLine(q, v, p);
  }

  /** Among words there is no shadow. */
  lemma WordsAreTold(m: map<Path, int>, p: Path)
    requires forall q | q in m :: IsWord(q) && IsInt32(m[q])
    ensures Told(m, p) == if p in m then m[p] else -1
  {
    hide Lines, Lookup, EntryText, Before, Printed, SpaceFree;
    FirstEntryDecides(m, m.Keys, p);
    forall q | q in m ensures EntrySays(q, m[q], p) == if q == p then Some(m[q]) else None {
      EntryOfWord(q, m[q], p);
    }
    assert Saying(m, m.Keys, p) == if p in m then {p} else {};
  }

  /** The shadow, concretely: with " p" at 5 and "p" at 0, the file says 5 of "p", and nothing of " p". */
  lemma LeadingSpaceShadows()
    ensures var m: map<Path, int> := map[[SPACE, 112] := 5, [112] := 0];
            Told(m, [112]) == 5 && Told(m, [SPACE, 112]) == -1
  {
    hide Lines, EntryText, Printed, IsWord;
    var p: Path, q: Path := [112], [SPACE, 112];
    var m: map<Path, int> := map[q := 5, p := 0];
    FirstEntryDecides(m, m.Keys, p);
    FirstEntryDecides(m, m.Keys, q);
    SpacedEntry();
    assert IsFirst(q, m.Keys);
    FirstOfPart(q, Saying(m, m.Keys, p), m.Keys);
    assert Lookup(Lines(VersionsText(m)), p) == Some(5) && Lookup(Lines(VersionsText(m)), q) == None;
  }

  lemma SpacedEntry()
    ensures EntrySays([SPACE, 112], 5, [112]) == Some(5) && !IsWord([SPACE, 112])
  {
    hide Lines, ReadPair, PairText;
    var line := PairText([SPACE, 112], 5);
    LeadingSpaceReads();
    PairTextLine([SPACE, 112], 5);
    FirstLine(line, []);
    NoLines();
    assert EntryText([SPACE, 112], 5) == line + [NEWLINE] + [];
    var s: Path := [SPACE, 112];
    assert IsSpace(s[0]);
  }

  lemma LeadingSpaceReads()
    ensures var r := ReadPair(PairText([SPACE, 112], 5)); r.Some? && r.value.0 == [112] && r.value.1 == 5
  {
    hide ReadInt, IntText, WordRun;
    ReadWordOf([112], [SPACE] + IntText(5));
    ReadIntOf(5, []);
    assert [SPACE] + IntText(5) + [] == [SPACE] + IntText(5);
    assert PairText([SPACE, 112], 5) == [SPACE] + [112] + ([SPACE] + IntText(5));
  }

  // ---- Replication map --------------------------------------------------------------------------------

  function HolderLine(m: map<Path, set<Name>>, line: ByteString): map<Path, set<Name>> {
    match CutLine(line)
    case None => m
    case Some((p, list)) => m[p := Names(list)]
  }

  function HolderLines(lines: seq<ByteString>): map<Path, set<Name>> {
    if lines == [] then map[] else HolderLine(HolderLines(lines[..|lines| - 1]), lines[|lines| - 1])
  }

  /** loadReplicationMap as a function of the file's contents. */
  function LoadHolders(text: ByteString): map<Path, set<Name>> { HolderLines(Lines(text)) }

  /** The character loop of loadReplicationMap. */
  method ParseNames(list: ByteString) returns (names: set<Name>)
    ensures names == Names(list)
  {
    names := {};
    var token: ByteString := [];
    var i := 0;
    while i < |list|
      invariant 0 <= i <= |list|
      invariant Scan(Scanner({}, []), list) == Scan(Scanner(names, token), list[i..])
    {
      assert list[i..][1..] == list[i + 1..];
      if list[i] == COMMA {
        if token != [] {
          names, token := names + {token}, [];
        }
      } else {
        token := token + [list[i]];
      }
      i := i + 1;
    }
    if token != [] {
      names := names + {token};
    }
  }

  lemma NoHolderLines()
    ensures HolderLines([]) == map[]
  {
  }

  lemma HolderLinesNext(lines: seq<ByteString>, i: nat)
    requires i < |lines|
    ensures HolderLines(lines[..i + 1]) == HolderLine(HolderLines(lines[..i]), lines[i])
  {
    assert lines[..i + 1][..i] == lines[..i];
  }

  method LoadReplicationMap(text: ByteString) returns (m: map<Path, set<Name>>)
    ensures m == LoadHolders(text)
  {
    hide Names, Lines, HolderLines;
    m := map[];
    var lines := Lines(text);
    var i := 0;
    NoHolderLines();
    assert lines[..0] == [];
    while i < |lines|
      invariant 0 <= i <= |lines| && m == HolderLines(lines[..i])
    {
      var line := lines[i];
      HolderLinesNext(lines, i);
      i := i + 1;
      if line == [] || line[0] == HASH {
        continue;
      }
      var sp := LastSpace(line);
      if sp.None? {
        continue;
      }
      var names := ParseNames(line[sp.value + 1..]);
      m := m[line[..sp.value] := names];
    }
    assert lines[..i] == lines;
  }

  /** Every byte of a list is a comma or belongs to one of the names. */
  ghost predicate MadeOf(list: ByteString, names: set<Name>) {
    forall i | 0 <= i < |list| :: list[i] == COMMA || exists n :: n in names && list[i] in n
  }

  /** The bytes of a set of names, each with a separator. */
  ghost function NamesSize(names: set<Name>): nat {
    if names == {} then 0 else var n :| n in names; |n| + 1 + NamesSize(names - {n})
  }

  lemma {:induction false} NamesSizeWithout(names: set<Name>, n: Name)
    requires n in names
    ensures NamesSize(names) == |n| + 1 + NamesSize(names - {n})
    decreases names
  {
    var m :| m in names && NamesSize(names) == |m| + 1 + NamesSize(names - {m});
    if m != n {
      NamesSizeWithout(names - {m}, n);
      NamesSizeWithout(names - {n}, m);
      assert names - {m} - {n} == names - {n} - {m};
    }
  }

  /** The inner loop of saveReplicationMap, also used for snapshot entries: the names, comma-separated. */
  method PrintNames(names: set<Name>) returns (list: ByteString)
    ensures (forall n | n in names :: n != [] && CommaFree(n)) ==> Names(list) == names && (list == [] <==> names == {})
    ensures MadeOf(list, names)
    ensures |list| + (if names == {} then 0 else 1) == NamesSize(names)
  {
    hide Names, NamesSize;
    NoNamesSize();
    list := [];
    var first := true;
    var todo := names;
    ghost var good := forall n | n in names :: n != [] && CommaFree(n);
    NoNames();
    while todo != {}
      invariant todo <= names && MadeOf(list, names) && (first <==> todo == names)
      invariant |list| + (if first then 0 else 1) + NamesSize(todo) == NamesSize(names)
      invariant good ==> (first <==> list == []) && Names(list) == names - todo
    {
      var n :| n in todo;
      if good {
        NamesSnoc(list, n, first);
      }
      NamesSizeWithout(todo, n);
      list := list + (if first then [] else [COMMA]) + n;
      first := false;
      todo := todo - {n};
    }
  }

  lemma NoNamesSize()
    ensures NamesSize({}) == 0
  {
  }

  lemma NoNames()
    ensures Names([]) == {}
  {
  }

  lemma LoadHoldersSnoc(text: ByteString, p: Path, list: ByteString)
    requires Terminated(text) && GoodPath(p) && forall i | 0 <= i < |list| :: list[i] != SPACE && list[i] != NEWLINE
    ensures LoadHolders(text + (p + [SPACE] + list) + [NEWLINE]) == LoadHolders(text)[p := Names(list)]
  {
    hide Lines, Names, CutLine;
    var line := p + [SPACE] + list;
    CutLineOf(p, list);
    LinesSnoc(text, line);
    var lines := Lines(text) + [line];
    assert lines[..|lines| - 1] == Lines(text);
  }

  lemma GoodNamesOnly(list: ByteString, names: set<Name>)
    requires MadeOf(list, names) && forall n | n in names :: GoodName(n)
    ensures forall i | 0 <= i < |list| :: list[i] != SPACE && list[i] != NEWLINE
  {
  }

  /** saveReplicationMap: loading what was saved gives the map back, empty holder sets included, exactly if
      every path and every node name is of the kind that survives. */
  method SaveReplicationMap(m: map<Path, set<Name>>) returns (text: ByteString)
    ensures LoadHolders(text) == m <==> forall p | p in m :: GoodPath(p) && forall n | n in m[p] :: GoodName(n)
  {
    hide LoadHolders, Names;
    text := [];
    ghost var good := forall p | p in m :: GoodPath(p) && forall n | n in m[p] :: GoodName(n);
    assert LoadHolders(text) == map[] by { LoadNothing(); }
    var todo := m.Keys;
    while todo != {}
      invariant todo <= m.Keys && Terminated(text)
      invariant good ==> LoadHolders(text) == map p | p in m && p !in todo :: m[p]
    {
      var p :| p in todo;
      var list := PrintNames(m[p]);
      if good {
        GoodNamesOnly(list, m[p]);
        LoadHoldersSnoc(text, p, list);
      }
      text := text + (p + [SPACE] + list) + [NEWLINE];
      todo := todo - {p};
    }
    assert good ==> LoadHolders(text) == m;
    if LoadHolders(text) == m {
      LoadedFromText(text);
    }
  }
}
