/** FileManager's version file (filemanager.cpp), the datanode's record of versions: a text file that is
    rewritten line by line and behaves as a map from paths to versions. */
module VersionFiles {
  import opened Bytes
  import opened Frames
  import opened Text
  import opened Stores

  /** Paths the file can hold: non-empty and without whitespace. */
  predicate IsWord(p: Path) { p != [] && SpaceFree(p) }

  /** The version that getFileVersion finds: that of the first line that reads as p. */
  function Lookup(lines: seq<ByteString>, p: Path): (r: Option<int>)
    ensures r.Some? ==> IsWord(p) && IsInt32(r.value)
  {
    if lines == [] then None
    else
      ReadPairIsWord(lines[0]);
      match ReadPair(lines[0])
      case Some((q, v, _)) => if q == p then Some(v) else Lookup(lines[1..], p)
      case None => Lookup(lines[1..], p)
  }

  /** getFileVersion on a file with this text. */
  function VersionIn(text: ByteString, p: Path): int {
    match Lookup(Lines(text), p) case Some(v) => v case None => -1
  }

  /** What setFileVersion makes of the lines: lines that do not read are dropped, those for p are replaced. */
  function Replaced(lines: seq<ByteString>, p: Path, v: int): seq<ByteString> {
    if lines == [] then []
    else
      match ReadPair(lines[0])
      case Some((q, _, _)) => [if q == p then PairText(q, v) else lines[0]] + Replaced(lines[1..], p, v)
      case None => Replaced(lines[1..], p, v)
  }

  function SetLines(lines: seq<ByteString>, p: Path, v: int): seq<ByteString> {
    if Lookup(lines, p).Some? then Replaced(lines, p, v) else Replaced(lines, p, v) + [PairText(p, v)]
  }

  /** What deleteFileAndVersion keeps. */
  function Without(lines: seq<ByteString>, p: Path): seq<ByteString> {
    if lines == [] then []
    else
      match ReadPair(lines[0])
      case Some((q, _, _)) => (if q == p then [] else [lines[0]]) + Without(lines[1..], p)
      case None => Without(lines[1..], p)
  }

  lemma {:induction false} LookupReplaced(lines: seq<ByteString>, p: Path, v: int, q: Path)
    requires IsInt32(v)
    ensures Lookup(Replaced(lines, p, v), q) ==
            if q == p && Lookup(lines, p).Some? then Some(v) else Lookup(lines, q)
  {
    if lines != [] {
      hide ReadPair, PairText;
      LookupReplaced(lines[1..], p, v, q);
      var after := Replaced(lines, p, v);
      match ReadPair(lines[0])
      case Some((r, _, _)) =>
        assert after[1..] == Replaced(lines[1..], p, v);
        if r == p {
          ReadPairIsWord(lines[0]);
          ReadPairOf(p, v, []);
          assert PairText(p, v) + [] == PairText(p, v);
        }
      case None =>
    }
  }

  lemma {:induction false} LookupSnoc(lines: seq<ByteString>, line: ByteString, q: Path)
    ensures Lookup(lines + [line], q) == if Lookup(lines, q).Some? then Lookup(lines, q) else Lookup([line], q)
  {
    if lines == [] {
      assert lines + [line] == [line];
    } else {
      hide ReadPair;
      LookupSnoc(lines[1..], line, q);
      assert (lines + [line])[1..] == lines[1..] + [line];
    }
  }

  lemma {:induction false} LookupWithout(lines: seq<ByteString>, p: Path, q: Path)
    ensures Lookup(Without(lines, p), q) == if q == p then None else Lookup(lines, q)
  {
    if lines != [] {
      hide ReadPair;
      LookupWithout(lines[1..], p, q);
      var rest := Without(lines[1..], p);
      assert [] + rest == rest;
      assert ([lines[0]] + rest)[1..] == rest;
    }
  }

  lemma LookupOneLine(p: Path, v: int, q: Path)
    requires IsWord(p) && IsInt32(v)
    ensures Lookup([PairText(p, v)], q) == if q == p then Some(v) else None
  {
    hide ReadPair, PairText;
    ReadPairOf(p, v, []);
    assert PairText(p, v) + [] == PairText(p, v);
    assert [PairText(p, v)][1..] == [];
  }

  /** Setting a version is a map update, for every path asked about, exactly if the path is a word.  A path
      with a space in it is never found again, and can even show up as another file's version. */
  lemma SetIsMapUpdateIff(lines: seq<ByteString>, p: Path, v: int)
    requires IsInt32(v)
    ensures (forall q :: Lookup(SetLines(lines, p, v), q) == if q == p then Some(v) else Lookup(lines, q)) <==>
            IsWord(p)
  {
    if IsWord(p) {
      forall q ensures Lookup(SetLines(lines, p, v), q) == if q == p then Some(v) else Lookup(lines, q) {
        SetLookup(lines, p, v, q);
      }
    } else {
      assert Lookup(SetLines(lines, p, v), p) == None;
    }
  }

  /** The mix-up, concretely: with no versions recorded, setting "a 3" to 5 records version 3 for "a". */
  lemma SpaceInPathMixesUp()
    ensures Lookup(SetLines([], [97, SPACE, 51], 5), [97]) == Some(3)
  {
    var line := PairText([97, SPACE, 51], 5);
    assert Digits(5) == [53] && Digits(3) == [51];
    assert line == PairText([97], 3) + [SPACE, 53];
    ReadPairOf([97], 3, [SPACE, 53]);
    assert SetLines([], [97, SPACE, 51], 5) == [line];
  }

  /** How the three functions unfold at line i. */
  lemma AtLine(lines: seq<ByteString>, i: nat, p: Path, v: int)
    requires i < |lines|
    ensures var pair := ReadPair(lines[i]);
            var isP := pair.Some? && pair.value.0 == p;
            && Lookup(lines[i..], p) == (if isP then Some(pair.value.1) else Lookup(lines[i + 1..], p))
            && Replaced(lines[i..], p, v) ==
               (if pair.Some? then [if isP then PairText(p, v) else lines[i]] else []) + Replaced(lines[i + 1..], p, v)
            && Without(lines[i..], p) == (if pair.Some? && !isP then [lines[i]] else []) + Without(lines[i + 1..], p)
  {
    hide ReadPair, PairText;
    assert lines[i..][1..] == lines[i + 1..];
    assert lines[i..][0] == lines[i];
    assert forall r: seq<ByteString> :: [] + r == r;
  }

  lemma AtEnd(lines: seq<ByteString>, p: Path, v: int)
    ensures lines[0..] == lines && lines[|lines|..] == []
    ensures Lookup([], p).None? && Replaced([], p, v) == [] && Without([], p) == []
  {
  }

  lemma Regroup(a: seq<ByteString>, b: seq<ByteString>, c: seq<ByteString>)
    ensures a + (b + c) == (a + b) + c && a + [] == a
  {
  }

  /** The line loop of setFileVersion. */
  method Rewrite(lines: seq<ByteString>, p: Path, v: int) returns (out: seq<ByteString>)
    ensures out == SetLines(lines, p, v)
  {
    hide ReadPair, PairText, Lookup, Replaced;
    out := [];
    var found := false;
    var i := 0;
    AtEnd(lines, p, v);
    while i < |lines|
      invariant 0 <= i <= |lines|
      invariant Replaced(lines, p, v) == out + Replaced(lines[i..], p, v)
      invariant Lookup(lines, p).Some? <==> found || Lookup(lines[i..], p).Some?
    {
      AtLine(lines, i, p, v);
      var pair := ReadPair(lines[i]);
      var put := if pair.Some? then [if pair.value.0 == p then PairText(p, v) else lines[i]] else [];
      Regroup(out, put, Replaced(lines[i + 1..], p, v));
      out := out + put;
      found := found || (pair.Some? && pair.value.0 == p);
      i := i + 1;
    }
    Regroup(out, [], []);
    if !found {
      out := out + [PairText(p, v)];
    }
  }

  /** The line loop of deleteFileAndVersion. */
  method Discard(lines: seq<ByteString>, p: Path) returns (out: seq<ByteString>)
    ensures out == Without(lines, p)
  {
    hide ReadPair, Without;
    out := [];
    var i := 0;
    AtEnd(lines, p, 0);
    while i < |lines|
      invariant 0 <= i <= |lines|
      invariant Without(lines, p) == out + Without(lines[i..], p)
    {
      AtLine(lines, i, p, 0);
      var pair := ReadPair(lines[i]);
      var kept := if pair.Some? && pair.value.0 != p then [lines[i]] else [];
      Regroup(out, kept, Without(lines[i + 1..], p));
      out := out + kept;
      i := i + 1;
    }
    Regroup(out, [], []);
  }

  /** The line loop of getFileVersion. */
  method FindVersion(text: ByteString, p: Path) returns (v: int)
    ensures v == VersionIn(text, p)
  {
    hide ReadPair, Lookup;
    var lines := Lines(text);
    var i := 0;
    AtEnd(lines, p, 0);
    while i < |lines|
      invariant 0 <= i <= |lines| && Lookup(lines, p) == Lookup(lines[i..], p)
    {
      AtLine(lines, i, p, 0);
      var pair := ReadPair(lines[i]);
      if pair.Some? && pair.value.0 == p {
        return pair.value.1;
      }
      i := i + 1;
    }
    v := -1;
  }

  ghost predicate AllLines(lines: seq<ByteString>) {
    forall k | 0 <= k < |lines| :: NewlineFree(lines[k])
  }

  lemma {:induction false} ReplacedLines(lines: seq<ByteString>, p: Path, v: int)
    requires NewlineFree(p) && AllLines(lines)
    ensures AllLines(Replaced(lines, p, v))
  {
    hide ReadPair, PairText, NewlineFree;
    PairTextLine(p, v);
    if lines != [] {
      ReplacedLines(lines[1..], p, v);
    }
  }

  lemma {:induction false} WithoutLines(lines: seq<ByteString>, p: Path)
    requires AllLines(lines)
    ensures AllLines(Without(lines, p))
  {
    hide ReadPair, NewlineFree;
    if lines != [] {
      WithoutLines(lines[1..], p);
    }
  }

  lemma SetLinesLines(lines: seq<ByteString>, p: Path, v: int)
    requires NewlineFree(p) && AllLines(lines)
    ensures AllLines(SetLines(lines, p, v))
  {
    hide ReadPair, PairText, NewlineFree, Lookup, Replaced;
    PairTextLine(p, v);
    ReplacedLines(lines, p, v);
  }

  lemma WordIsLine(p: Path)
    requires IsWord(p)
    ensures NewlineFree(p)
  {
  }

  lemma SetLookup(lines: seq<ByteString>, p: Path, v: int, q: Path)
    requires IsInt32(v) && IsWord(p)
    ensures Lookup(SetLines(lines, p, v), q) == if q == p then Some(v) else Lookup(lines, q)
  {
    LookupReplaced(lines, p, v, q);
    LookupSnoc(Replaced(lines, p, v), PairText(p, v), q);
    LookupOneLine(p, v, q);
  }

  /** The whole file after setFileVersion and after deleteFileAndVersion. */
  function SetText(text: ByteString, p: Path, v: int): ByteString { Unlines(SetLines(Lines(text), p, v)) }

  function WithoutText(text: ByteString, p: Path): ByteString { Unlines(Without(Lines(text), p)) }

  lemma {:induction false} LookupAppend(a: seq<ByteString>, b: seq<ByteString>, q: Path)
    ensures Lookup(a + b, q) == if Lookup(a, q).Some? then Lookup(a, q) else Lookup(b, q)
    decreases |a|
  {
    hide ReadPair;
    if a == [] {
      assert a + b == b;
    } else {
      assert (a + b)[1..] == a[1..] + b;
      LookupAppend(a[1..], b, q);
    }
  }

  /** What the file says after a version was set, whatever the path: a word is recorded, any other path is
      not, and what was recorded for other paths stays. */
  lemma SetTextLookup(text: ByteString, p: Path, v: int, q: Path)
    requires IsInt32(v)
    ensures var now := Lookup(Lines(SetText(text, p, v)), q);
            && (q == p ==> now == if IsWord(p) then Some(v) else None)
            && (q != p && (IsWord(p) || Lookup(Lines(text), q).Some?) ==> now == Lookup(Lines(text), q))
  {
    hide Lines, Lookup, Replaced, PairText, SpaceFree;
    var lines := Lines(text);
    assert AllLines(lines);
    if IsWord(p) {
      WordIsLine(p);
      SetLinesLines(lines, p, v);
      LinesOfUnlines(SetLines(lines, p, v));
      SetLookup(lines, p, v, q);
    } else {
      var kept, line := Replaced(lines, p, v), PairText(p, v);
      KeptLines(lines, p, v);
      assert SetLines(lines, p, v) == kept + [line];
      assert (kept + [line])[..|kept|] == kept;
      assert Unlines(kept + [line]) == Unlines(kept) + (line + [NEWLINE]);
      LinesAppend(kept, line + [NEWLINE]);
      LookupAppend(kept, Lines(line + [NEWLINE]), q);
      LookupReplaced(lines, p, v, q);
    }
  }

  /** A path that is not a word has no lines of its own, so setting its version only appends. */
  lemma {:induction false} KeptLines(lines: seq<ByteString>, p: Path, v: int)
    requires AllLines(lines) && !IsWord(p)
    ensures AllLines(Replaced(lines, p, v))
  {
    hide ReadPair, PairText, NewlineFree, SpaceFree;
    if lines != [] {
      ReadPairIsWord(lines[0]);
      KeptLines(lines[1..], p, v);
    }
  }

  lemma WithoutTextLookup(text: ByteString, p: Path, q: Path)
    ensures Lookup(Lines(WithoutText(text, p)), q) == if q == p then None else Lookup(Lines(text), q)
  {
    hide Lines, Lookup, Without;
    WithoutLines(Lines(text), p);
    LinesOfUnlines(Without(Lines(text), p));
    LookupWithout(Lines(text), p, q);
  }

  // ---- Reports --------------------------------------------------------------------------------------------

  /** The version that getFileVersionMap reports: that of the last line that reads as p. */
  function LastLookup(lines: seq<ByteString>, p: Path): Option<int> {
    if lines == [] then None
    else if LastLookup(lines[1..], p).Some? then LastLookup(lines[1..], p)
    else
      match ReadPair(lines[0])
      case Some((q, v, _)) => if q == p then Some(v) else None
      case None => None
  }

  lemma {:induction false} OnlyWordsAreReported(lines: seq<ByteString>, p: Path)
    ensures LastLookup(lines, p).Some? ==> IsWord(p)
  {
    hide ReadPair, SpaceFree;
    if lines != [] {
      ReadPairIsWord(lines[0]);
      OnlyWordsAreReported(lines[1..], p);
    }
  }

  lemma {:induction false} LastReplaced(lines: seq<ByteString>, p: Path, v: int)
    requires IsWord(p) && IsInt32(v)
    ensures LastLookup(Replaced(lines, p, v), p) == if Lookup(lines, p).Some? then Some(v) else None
    ensures LastLookup(Replaced(lines, p, v) + [PairText(p, v)], p) == Some(v)
  {
    hide PairText, ReadPair, SpaceFree;
    assert ReadPair(PairText(p, v)) == Some((p, v, [])) by {
      ReadPairOf(p, v, []);
      assert PairText(p, v) + [] == PairText(p, v);
    }
    if lines == [] {
      assert [PairText(p, v)][1..] == [];
    } else {
      LastReplaced(lines[1..], p, v);
      var r, rest := Replaced(lines, p, v), Replaced(lines[1..], p, v);
      if ReadPair(lines[0]).Some? {
        assert r[1..] == rest && (r + [PairText(p, v)])[1..] == rest + [PairText(p, v)];
      }
    }
  }

  /** What is written for a new path. */
  function EntryText(q: Path, v: int): (text: ByteString)
    ensures Terminated(text)
  {
    PairText(q, v) + [NEWLINE]
  }

  lemma {:induction false} LastLookupAppend(a: seq<ByteString>, b: seq<ByteString>, p: Path)
    ensures LastLookup(a + b, p) == if LastLookup(b, p).Some? then LastLookup(b, p) else LastLookup(a, p)
  {
    hide ReadPair;
    if a == [] {
      assert a + b == b;
    } else {
      assert (a + b)[1..] == a[1..] + b;
      LastLookupAppend(a[1..], b, p);
    }
  }

  /** Replacing the lines of another path, or dropping them, leaves those that read as p. */
  lemma {:induction false} LastOfOther(lines: seq<ByteString>, q: Path, v: int, p: Path)
    requires q != p && IsInt32(v)
    ensures LastLookup(Replaced(lines, q, v), p) == LastLookup(lines, p) == LastLookup(Without(lines, q), p)
  {
    hide PairText, ReadPair;
    if lines != [] {
      LastOfOther(lines[1..], q, v, p);
      var r, w := Replaced(lines, q, v), Without(lines, q);
      match ReadPair(lines[0])
      case Some((o, _, _)) =>
        assert r[1..] == Replaced(lines[1..], q, v);
        if o == q {
          ReadPairIsWord(lines[0]);
          ReadPairOf(q, v, []);
          assert PairText(q, v) + [] == PairText(q, v);
          assert w == [] + Without(lines[1..], q) == Without(lines[1..], q);
        } else {
          assert w[1..] == Without(lines[1..], q);
        }
      case None =>
    }
  }

  lemma ReplacedAreLines(lines: seq<ByteString>, q: Path, v: int)
    requires AllLines(lines)
    ensures AllLines(Replaced(lines, q, v))
  {
    hide NewlineFree, SpaceFree;
    if IsWord(q) {
      WordIsLine(q);
      ReplacedLines(lines, q, v);
    } else {
      KeptLines(lines, q, v);
    }
  }

  /** What is later done to the file for another path. */
  datatype Edit = SetVersion(path: Path, version: int) | ForgetVersion(path: Path)

  function Edited(text: ByteString, e: Edit): ByteString {
    match e
    case SetVersion(q, w) => SetText(text, q, w)
    case ForgetVersion(q) => WithoutText(text, q)
  }

  function EditedAll(text: ByteString, edits: seq<Edit>): ByteString
    decreases |edits|
  {
    if edits == [] then text else EditedAll(Edited(text, edits[0]), edits[1..])
  }

  /** What an edit writes that reads as p. */
  function Says(e: Edit, p: Path): Option<int> {
    if e.SetVersion? then LastLookup(Lines(EntryText(e.path, e.version)), p) else None
  }

  /** What the last edit that writes a line read as p says. */
  function LastSaid(edits: seq<Edit>, p: Path): Option<int> {
    if edits == [] then None
    else if LastSaid(edits[1..], p).Some? then LastSaid(edits[1..], p)
    else Says(edits[0], p)
  }

  predicate OfOthers(edits: seq<Edit>, p: Path) {
    forall i | 0 <= i < |edits| :: edits[i].path != p && (edits[i].SetVersion? ==> IsInt32(edits[i].version))
  }

  lemma WordSaysNothing(q: Path, w: int, p: Path)
    requires IsWord(q) && IsInt32(w) && q != p
    ensures LastLookup(Lines(EntryText(q, w)), p) == None
  {
    hide Lines, PairText, SpaceFree, ReadPair;
    WordIsLine(q);
    PairTextLine(q, w);
    FirstLine(PairText(q, w), []);
    NoLines();
    assert EntryText(q, w) == PairText(q, w) + [NEWLINE] + [];
    ReadPairOf(q, w, []);
    assert PairText(q, w) + [] == PairText(q, w) && [PairText(q, w)][1..] == [];
  }

  /** One edit adds at most what it says. */
  lemma LastEdited(text: ByteString, e: Edit, p: Path)
    requires OfOthers([e], p)
    ensures LastLookup(Lines(Edited(text, e)), p) == if Says(e, p).Some? then Says(e, p) else LastLookup(Lines(text), p)
  {
    hide Lines, LastLookup, Replaced, Without, Lookup, PairText, SpaceFree;
    var lines := Lines(text);
    assert [e][0] == e && AllLines(lines);
    LastOfOther(lines, e.path, if e.SetVersion? then e.version else 0, p);
    match e
    case ForgetVersion(q) =>
      WithoutLines(lines, q);
      LinesOfUnlines(Without(lines, q));
    case SetVersion(q, w) =>
      var kept := Replaced(lines, q, w);
      ReplacedAreLines(lines, q, w);
      if Lookup(lines, q).Some? {
        LinesOfUnlines(kept);
        WordSaysNothing(q, w, p);
      } else {
        assert (kept + [PairText(q, w)])[..|kept|] == kept;
        assert Unlines(kept + [PairText(q, w)]) == Unlines(kept) + EntryText(q, w);
        LinesAppend(kept, EntryText(q, w));
        LastLookupAppend(kept, Lines(EntryText(q, w)), p);
      }
  }

  lemma FirstEdited(text: ByteString, e: Edit, p: Path)
    requires OfOthers([e], p) && Lookup(Lines(text), p).Some?
    ensures Lookup(Lines(Edited(text, e)), p) == Lookup(Lines(text), p)
  {
    hide Lines, Lookup, SetText, WithoutText;
    assert [e][0] == e;
    match e
    case SetVersion(q, w) => SetTextLookup(text, q, w, p);
    case ForgetVersion(q) => WithoutTextLookup(text, q, p);
  }

  lemma {:induction false} EditsAddUp(text: ByteString, edits: seq<Edit>, p: Path)
    requires OfOthers(edits, p) && Lookup(Lines(text), p).Some?
    ensures Lookup(Lines(EditedAll(text, edits)), p) == Lookup(Lines(text), p)
    ensures LastLookup(Lines(EditedAll(text, edits)), p) ==
            if LastSaid(edits, p).Some? then LastSaid(edits, p) else LastLookup(Lines(text), p)
    decreases |edits|
  {
    hide Lines, Lookup, LastLookup, Edited, Says;
    if edits != [] {
      assert OfOthers([edits[0]], p) && OfOthers(edits[1..], p);
      LastEdited(text, edits[0], p);
      FirstEdited(text, edits[0], p);
      EditsAddUp(Edited(text, edits[0]), edits[1..], p);
    }
  }

  /** After a word was set last, and whatever is then done for other paths, it stays on record as it was set,
      and is reported so if and only if the last of the lines written since that read as it, if any, carries
      the same version. */
  lemma ReportedIff(text: ByteString, p: Path, v: int, edits: seq<Edit>)
    requires IsWord(p) && IsInt32(v) && OfOthers(edits, p)
    ensures var lines := Lines(EditedAll(SetText(text, p, v), edits));
            && Lookup(lines, p) == Some(v)
            && (LastLookup(lines, p) == Some(v) <==> LastSaid(edits, p) == None || LastSaid(edits, p) == Some(v))
  {
    hide Lines, Lookup, LastLookup, SetText, SpaceFree, LastSaid, EditedAll;
    SetTextLookup(text, p, v, p);
    WordIsReported(text, p, v);
    EditsAddUp(SetText(text, p, v), edits, p);
  }

  lemma WordIsReported(text: ByteString, p: Path, v: int)
    requires IsWord(p) && IsInt32(v)
    ensures LastLookup(Lines(SetText(text, p, v)), p) == Some(v)
  {
    hide Lines, Lookup, LastLookup, Replaced, PairText, SpaceFree;
    var lines := Lines(text);
    WordIsLine(p);
    assert AllLines(lines);
    SetLinesLines(lines, p, v);
    LinesOfUnlines(SetLines(lines, p, v));
    LastReplaced(lines, p, v);
  }

  /** A misreport, concretely: after "a" at 0 and "a 3" at 5, "a" is still recorded at 0 but
      reported at 3. */
  lemma SpacedPathMisreports()
    ensures var lines := SetLines(SetLines([], [97], 0), [97, SPACE, 51], 5);
            Lookup(lines, [97]) == Some(0) && LastLookup(lines, [97]) == Some(3)
  {
    hide SpaceFree, PairText, ReadPair;
    var a: Path, spaced: Path := [97], [97, SPACE, 51];
    WordOrNot();
    var first: seq<ByteString>, second: seq<ByteString> := [PairText(a, 0)], [PairText(spaced, 5)];
    ReadPairOf(a, 0, []);
    assert PairText(a, 0) + [] == PairText(a, 0);
    SpacedLineReads();
    assert first[1..] == [] && second[1..] == [];
    assert SetLines([], a, 0) == first;
    assert Lookup(first, spaced).None?;
    assert Replaced(first, spaced, 5) == first;
    assert SetLines(first, spaced, 5) == first + second;
    assert (first + second)[1..] == second;
    assert LastLookup(second[1..], a) == None;
    assert LastLookup(second, a) == Some(3);
  }

  lemma WordOrNot()
    ensures IsWord([97]) && !IsWord([97, SPACE, 51])
  {
    var s: Path := [97, SPACE, 51];
    assert IsSpace(s[1]);
  }

  lemma SpacedLineReads()
    ensures ReadPair(PairText([97, SPACE, 51], 5)).Some? && ReadPair(PairText([97, SPACE, 51], 5)).value.0 == [97]
    ensures ReadPair(PairText([97, SPACE, 51], 5)).value.1 == 3
  {
    var line := PairText([97, SPACE, 51], 5);
    ReadPairOf([97], 3, [SPACE] + IntText(5));
    assert IntText(3) == [51];
    assert PairText([97], 3) + ([SPACE] + IntText(5)) == line;
  }

  /** The file on disk. */
  class VersionFile {
    var text: ByteString

    constructor ()
      ensures forall p :: Recorded(p) == None
    {
      text := [];
    }

    /** The map that the file stands for. */
    ghost function Recorded(p: Path): Option<int>
      reads this
    {
      Lookup(Lines(text), p)
    }

    /** getFileVersion. */
    method GetFileVersion(p: Path) returns (v: int)
      ensures v == match Recorded(p) case Some(w) => w case None => -1
    {
      v := FindVersion(text, p);
    }

    /** setFileVersion: reads all lines, rewrites those for p, writes the file back. */
    method SetFileVersion(p: Path, v: int)
      requires IsInt32(v)
      modifies this
      ensures IsWord(p) ==> forall q :: Recorded(q) == if q == p then Some(v) else old(Recorded(q))
      ensures NewlineFree(p) ==> Lines(text) == SetLines(Lines(old(text)), p, v)
    {
      hide Lines, Lookup, SetLines, SpaceFree, PairText;
      var out := Rewrite(Lines(text), p, v);
      text := Unlines(out);
      if NewlineFree(p) {
        SetLinesLines(Lines(old(text)), p, v);
        LinesOfUnlines(out);
      }
      if IsWord(p) {
        WordIsLine(p);
        forall q ensures Recorded(q) == if q == p then Some(v) else old(Recorded(q)) {
          SetLookup(old(Lines(text)), p, v, q);
        }
      }
    }

    /** deleteFileAndVersion: only if the file itself could be removed. */
    method DeleteFileAndVersion(p: Path, existed: bool) returns (ok: bool)
      modifies this
      ensures ok == existed
      ensures forall q :: Recorded(q) == if ok && q == p then None else old(Recorded(q))
    {
      hide Lines, Lookup, Without;
      if !existed {
        return false;
      }
      var out := Discard(Lines(text), p);
      text := Unlines(out);
      WithoutLines(old(Lines(text)), p);
      LinesOfUnlines(out);
      forall q ensures Recorded(q) == if q == p then None else old(Recorded(q)) {
        LookupWithout(old(Lines(text)), p, q);
      }
      ok := true;
    }
  }

  lemma PairTextLine(p: Path, v: int)
    ensures NewlineFree(p) ==> NewlineFree(PairText(p, v))
  {
  }
}
