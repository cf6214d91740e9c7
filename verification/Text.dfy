/** The text conventions that the persisted files and the snapshot entries share: decimal integers,
    whitespace-separated words, comma-separated names, lines. */
module Text {
  import opened Bytes
  import opened Frames

  const TAB: byte := 9
  const NEWLINE: byte := 10
  const SPACE: byte := 32
  const HASH: byte := 35
  const PLUS: byte := 43
  const COMMA: byte := 44
  const MINUS: byte := 45
  const ZERO: byte := 48
  const NINE: byte := 57

  /** isspace in the C locale. */
  predicate IsSpace(b: byte) { b == SPACE || TAB <= b <= 13 }

  predicate IsDigit(b: byte) { ZERO <= b <= NINE }

  // ---- Decimal integers ---------------------------------------------------------------------------

  function Digits(n: nat): (s: ByteString)
    ensures s != [] && forall i | 0 <= i < |s| :: IsDigit(s[i])
  {
    if n < 10 then [ZERO + n] else Digits(n / 10) + [ZERO + n % 10]
  }

  /** std::to_string and operator<< of an int. */
  function IntText(v: int): (s: ByteString)
    ensures s != [] && (forall i | 0 <= i < |s| :: IsDigit(s[i]) || s[i] == MINUS)
  {
    if v < 0 then [MINUS] + Digits(-v) else Digits(v)
  }

  function DigitsValue(s: ByteString): nat
    requires forall i | 0 <= i < |s| :: IsDigit(s[i])
  {
    if s == [] then 0
    else
      assert IsDigit(s[|s| - 1]);
      DigitsValue(s[..|s| - 1]) * 10 + (s[|s| - 1] as int - ZERO as int)
  }

  lemma {:induction false} DigitsReadBack(n: nat)
    ensures DigitsValue(Digits(n)) == n
  {
    var s := Digits(n);
    if n < 10 {
      assert s[..0] == [];
    } else {
      DigitsReadBack(n / 10);
      assert s[..|s| - 1] == Digits(n / 10);
    }
  }

  /** How many digits s starts with. */
  function DigitRun(s: ByteString): (n: nat)
    ensures n <= |s| && (forall i | 0 <= i < n :: IsDigit(s[i])) && (n < |s| ==> !IsDigit(s[n]))
  {
    if s == [] || !IsDigit(s[0]) then 0 else 1 + DigitRun(s[1..])
  }

  lemma {:induction false} DigitRunOf(ds: ByteString, tail: ByteString)
    requires forall i | 0 <= i < |ds| :: IsDigit(ds[i])
    requires tail == [] || !IsDigit(tail[0])
    ensures DigitRun(ds + tail) == |ds|
  {
    if ds == [] {
      assert ds + tail == tail;
    } else {
      assert (ds + tail)[1..] == ds[1..] + tail;
      DigitRunOf(ds[1..], tail);
    }
  }

  function SkipSpace(s: ByteString): (r: ByteString)
    ensures |r| <= |s| && (r != [] ==> !IsSpace(r[0]))
  {
    if s != [] && IsSpace(s[0]) then SkipSpace(s[1..]) else s
  }

  /** An optional sign, then as many digits as there are; None without digits or outside the int range. */
  function ReadDecimal(s: ByteString): (r: Option<(int, ByteString)>)
  {
    var negative := s != [] && s[0] == MINUS;
    var rest := if s != [] && (s[0] == MINUS || s[0] == PLUS) then s[1..] else s;
    var n := DigitRun(rest);
    if n == 0 then None
    else
      var d: int := DigitsValue(rest[..n]);
      var v := if negative then -d else d;
      if IsInt32(v) then Some((v, rest[n..])) else None
  }

  /** operator>> into an int. */
  function ReadInt(s: ByteString): (r: Option<(int, ByteString)>) {
    ReadDecimal(SkipSpace(s))
  }

  /** std::stoi: what follows the digits is ignored. */
  function Stoi(s: ByteString): (r: Option<int>) {
    match ReadInt(s) case None => None case Some((v, _)) => Some(v)
  }

  lemma ReadDecimalOf(v: int, tail: ByteString)
    requires IsInt32(v) && (tail == [] || !IsDigit(tail[0]))
    ensures ReadDecimal(IntText(v) + tail) == Some((v, tail))
  {
    var ds := if v < 0 then Digits(-v) else Digits(v);
    DigitsReadBack(if v < 0 then -v else v);
    DigitRunOf(ds, tail);
    var s := IntText(v) + tail;
    assert IsDigit(ds[0]);
    if v < 0 {
      assert s[1..] == ds + tail;
    } else {
      assert s == ds + tail;
    }
    assert (ds + tail)[..|ds|] == ds && (ds + tail)[|ds|..] == tail;
  }

  /** A printed integer is read back, with or without a space before it. */
  lemma ReadIntOf(v: int, tail: ByteString)
    requires IsInt32(v) && (tail == [] || !IsDigit(tail[0]))
    ensures ReadInt(IntText(v) + tail) == Some((v, tail))
    ensures ReadInt([SPACE] + IntText(v) + tail) == Some((v, tail))
  {
    hide ReadDecimal, Digits;
    ReadDecimalOf(v, tail);
    var s := IntText(v) + tail;
    assert s[0] == IntText(v)[0] && !IsSpace(s[0]);
    assert SkipSpace(s) == s;
    assert ([SPACE] + IntText(v) + tail)[1..] == s;
    assert SkipSpace([SPACE] + IntText(v) + tail) == SkipSpace(s);
  }

  /** So is one with a plus sign. */
  lemma PlusIsRead(n: nat, tail: ByteString)
    requires IsInt32(n) && (tail == [] || !IsDigit(tail[0]))
    ensures ReadInt([PLUS] + Digits(n) + tail) == Some((n, tail))
  {
    hide Digits, DigitRun, DigitsValue;
    var s := [PLUS] + Digits(n) + tail;
    DigitsReadBack(n);
    DigitRunOf(Digits(n), tail);
    assert SkipSpace(s) == s && s[1..] == Digits(n) + tail;
    assert (Digits(n) + tail)[..|Digits(n)|] == Digits(n) && (Digits(n) + tail)[|Digits(n)|..] == tail;
  }

  // ---- Words --------------------------------------------------------------------------------------

  predicate SpaceFree(s: ByteString) { forall i | 0 <= i < |s| :: !IsSpace(s[i]) }

  function WordRun(s: ByteString): (n: nat)
    ensures n <= |s| && SpaceFree(s[..n]) && (n < |s| ==> IsSpace(s[n]))
  {
    if s == [] || IsSpace(s[0]) then 0
    else
      var n := 1 + WordRun(s[1..]);
      assert s[..n] == [s[0]] + s[1..][..n - 1];
      n
  }

  /** operator>> into a string: skips whitespace, then takes everything up to the next; fails at the end. */
  function ReadWord(s: ByteString): (r: Option<(ByteString, ByteString)>)
    ensures r.Some? ==> r.value.0 != [] && SpaceFree(r.value.0)
  {
    var t := SkipSpace(s);
    if t == [] then None else Some((t[..WordRun(t)], t[WordRun(t)..]))
  }

  lemma {:induction false} WordRunOf(w: ByteString, tail: ByteString)
    requires SpaceFree(w) && (tail == [] || IsSpace(tail[0]))
    ensures WordRun(w + tail) == |w|
  {
    if w == [] {
      assert w + tail == tail;
    } else {
      assert (w + tail)[1..] == w[1..] + tail;
      WordRunOf(w[1..], tail);
    }
  }

  /** A word followed by whitespace or nothing is read as that word, with or without a space before it. */
  lemma ReadWordOf(w: ByteString, tail: ByteString)
    requires w != [] && SpaceFree(w) && (tail == [] || IsSpace(tail[0]))
    ensures ReadWord(w + tail) == Some((w, tail))
    ensures ReadWord([SPACE] + w + tail) == Some((w, tail))
  {
    var s := w + tail;
    WordRunOf(w, tail);
    assert s[0] == w[0];
    assert SkipSpace(s) == s;
    assert s[..|w|] == w && s[|w|..] == tail;
    assert ([SPACE] + w + tail)[1..] == s;
    assert SkipSpace([SPACE] + w + tail) == SkipSpace(s);
  }

  /** "path version" at the start of a line, as FileManager and the snapshot parser read it. */
  function ReadPair(line: ByteString): (r: Option<(ByteString, int, ByteString)>)
  {
    match ReadWord(line)
    case None => None
    case Some((path, rest)) =>
      match ReadInt(rest)
      case None => None
      case Some((v, rest')) => Some((path, v, rest'))
  }

  function PairText(path: ByteString, v: int): ByteString { path + [SPACE] + IntText(v) }

  lemma ReadPairOf(path: ByteString, v: int, tail: ByteString)
    requires path != [] && SpaceFree(path) && IsInt32(v) && (tail == [] || IsSpace(tail[0]))
    ensures ReadPair(PairText(path, v) + tail) == Some((path, v, tail))
  {
    hide ReadWord, ReadInt, IntText;
    var rest := [SPACE] + IntText(v) + tail;
    assert PairText(path, v) + tail == path + rest;
    ReadWordOf(path, rest);
    ReadIntOf(v, tail);
  }

  /** What is read as a path is a word, and so never a path with whitespace in it. */
  lemma ReadPairIsWord(line: ByteString)
    ensures ReadPair(line).Some? ==> ReadPair(line).value.0 != [] && SpaceFree(ReadPair(line).value.0)
  {
  }

  // ---- Comma-separated names ------------------------------------------------------------------------

  /** The state of the name scanner: names completed, and the one being read. */
  datatype Scanner = Scanner(names: set<ByteString>, token: ByteString)

  function Flush(sc: Scanner): set<ByteString> {
    if sc.token == [] then sc.names else sc.names + {sc.token}
  }

  function ScanByte(sc: Scanner, b: byte): Scanner {
    if b == COMMA then Scanner(Flush(sc), []) else sc.(token := sc.token + [b])
  }

  function Scan(sc: Scanner, s: ByteString): Scanner
    decreases |s|
  {
    if s == [] then sc else Scan(ScanByte(sc, s[0]), s[1..])
  }

  /** The non-empty names in a comma-separated list. */
  function Names(s: ByteString): set<ByteString> { Flush(Scan(Scanner({}, []), s)) }

  predicate CommaFree(s: ByteString) { forall i | 0 <= i < |s| :: s[i] != COMMA }

  lemma {:induction false} ScanAppend(sc: Scanner, a: ByteString, b: ByteString)
    ensures Scan(sc, a + b) == Scan(Scan(sc, a), b)
    decreases |a|
  {
    if a == [] {
      assert a + b == b;
    } else {
      assert (a + b)[1..] == a[1..] + b;
      ScanAppend(ScanByte(sc, a[0]), a[1..], b);
    }
  }

  lemma {:induction false} ScanName(sc: Scanner, name: ByteString)
    requires CommaFree(name)
    ensures Scan(sc, name) == sc.(token := sc.token + name)
    decreases |name|
  {
    if name == [] {
      assert sc.token + name == sc.token;
    } else {
      ScanName(ScanByte(sc, name[0]), name[1..]);
      assert sc.token + [name[0]] + name[1..] == sc.token + name;
    }
  }

  /** Appending a name, with a comma if it is not the first, adds that name. */
  lemma NamesSnoc(list: ByteString, name: ByteString, first: bool)
    requires name != [] && CommaFree(name) && (first <==> list == [])
    ensures Names(list + (if first then [] else [COMMA]) + name) == Names(list) + {name}
  {
    var empty := Scanner({}, []);
    if first {
      assert list + [] + name == name;
      ScanName(empty, name);
      assert [] + name == name;
    } else {
      var sc := Scan(empty, list);
      ScanAppend(empty, list + [COMMA], name);
      ScanAppend(empty, list, [COMMA]);
      assert [COMMA][1..] == [];
      assert Scan(sc, [COMMA]) == ScanByte(sc, COMMA);
      ScanName(ScanByte(sc, COMMA), name);
      assert [] + name == name;
    }
  }

  ghost predicate AllNamesIn(sc: Scanner, s: ByteString) {
    && (forall i | 0 <= i < |sc.token| :: sc.token[i] in s && sc.token[i] != COMMA)
    && (forall n | n in sc.names :: n != [] && CommaFree(n) && forall i | 0 <= i < |n| :: n[i] in s)
  }

  lemma {:induction false} ScanWellFormed(sc: Scanner, s: ByteString, whole: ByteString)
    requires AllNamesIn(sc, whole) && forall i | 0 <= i < |s| :: s[i] in whole
    ensures AllNamesIn(Scan(sc, s), whole)
    decreases |s|
  {
    if s != [] {
      ScanWellFormed(ScanByte(sc, s[0]), s[1..], whole);
    }
  }

  /** The names read are non-empty, comma-free and made of bytes of the list. */
  lemma NamesWellFormed(s: ByteString)
    ensures forall n | n in Names(s) :: n != [] && CommaFree(n) && forall i | 0 <= i < |n| :: n[i] in s
  {
    ScanWellFormed(Scanner({}, []), s, s);
  }

  // ---- Lines ------------------------------------------------------------------------------------------

  predicate NewlineFree(s: ByteString) { forall i | 0 <= i < |s| :: s[i] != NEWLINE }

  function LineRun(s: ByteString): (n: nat)
    ensures n <= |s| && NewlineFree(s[..n]) && (n < |s| ==> s[n] == NEWLINE)
  {
    if s == [] || s[0] == NEWLINE then 0
    else
      var n := 1 + LineRun(s[1..]);
      assert s[..n] == [s[0]] + s[1..][..n - 1];
      n
  }

  /** std::getline until the end of the file. */
  function Lines(s: ByteString): (r: seq<ByteString>)
    ensures forall i | 0 <= i < |r| :: NewlineFree(r[i])
    decreases |s|
  {
    if s == [] then []
    else
      var n := LineRun(s);
      [s[..n]] + if n == |s| then [] else Lines(s[n + 1..])
  }

  predicate Terminated(s: ByteString) { s == [] || s[|s| - 1] == NEWLINE }

  lemma {:induction false} LineRunOf(line: ByteString, tail: ByteString)
    requires NewlineFree(line)
    ensures LineRun(line + [NEWLINE] + tail) == |line|
  {
    if line != [] {
      assert (line + [NEWLINE] + tail)[1..] == line[1..] + [NEWLINE] + tail;
      LineRunOf(line[1..], tail);
    }
  }

  lemma FirstLine(line: ByteString, rest: ByteString)
    requires NewlineFree(line)
    ensures Lines(line + [NEWLINE] + rest) == [line] + Lines(rest)
  {
    var t := line + [NEWLINE] + rest;
    LineRunOf(line, rest);
    assert t[..|line|] == line && t[|line| + 1..] == rest;
  }

  lemma NewlineAtEnd(s: ByteString)
    requires s != [] && s[|s| - 1] == NEWLINE
    ensures LineRun(s) < |s|
  {
  }

  lemma NoLines()
    ensures Lines([]) == []
  {
  }

  /** Text that ends with a newline is read before whatever follows it. */
  lemma {:induction false} LinesConcat(a: ByteString, b: ByteString)
    requires Terminated(a)
    ensures Lines(a + b) == Lines(a) + Lines(b)
    decreases |a|
  {
    hide Lines, NewlineFree;
    if a == [] {
      assert a + b == b;
      NoLines();
    } else {
      assert LineRun(a) < |a| by { NewlineAtEnd(a); }
      var n := LineRun(a);
      assert NewlineFree(a[..n]);
      var first, rest := a[..n], a[n + 1..];
      assert a == first + [NEWLINE] + rest;
      assert a + b == first + [NEWLINE] + (rest + b);
      FirstLine(first, rest + b);
      FirstLine(first, rest);
      assert rest != [] ==> rest[|rest| - 1] == a[|a| - 1];
      LinesConcat(rest, b);
      assert [first] + (Lines(rest) + Lines(b)) == [first] + Lines(rest) + Lines(b);
    }
  }

  /** One more line at the end of a file. */
  lemma LinesSnoc(s: ByteString, line: ByteString)
    requires Terminated(s) && NewlineFree(line)
    ensures Lines(s + line + [NEWLINE]) == Lines(s) + [line]
  {
    hide Lines, NewlineFree;
    LinesConcat(s, line + [NEWLINE]);
    assert s + line + [NEWLINE] == s + (line + [NEWLINE]) && line + [NEWLINE] == line + [NEWLINE] + [];
    FirstLine(line, []);
    NoLines();
  }

  /** Several lines, each with its newline. */
  function Unlines(lines: seq<ByteString>): (s: ByteString)
    ensures Terminated(s)
  {
    if lines == [] then [] else Unlines(lines[..|lines| - 1]) + lines[|lines| - 1] + [NEWLINE]
  }

  lemma {:induction false} LinesOfUnlines(lines: seq<ByteString>)
    requires forall i | 0 <= i < |lines| :: NewlineFree(lines[i])
    ensures Lines(Unlines(lines)) == lines
  {
    hide Lines;
    NoLines();
    if lines != [] {
      var init := lines[..|lines| - 1];
      LinesOfUnlines(init);
      LinesSnoc(Unlines(init), lines[|lines| - 1]);
      assert init + [lines[|lines| - 1]] == lines;
    }
  }

  /** Written lines are read back in front of whatever text follows them. */
  lemma LinesAppend(lines: seq<ByteString>, text: ByteString)
    requires forall i | 0 <= i < |lines| :: NewlineFree(lines[i])
    ensures Lines(Unlines(lines) + text) == lines + Lines(text)
  {
    hide Lines, NewlineFree, Unlines;
    LinesConcat(Unlines(lines), text);
    LinesOfUnlines(lines);
  }

  /** rfind(' '): the last space, or None. */
  function LastSpace(s: ByteString): (r: Option<nat>)
    ensures r.Some? ==> r.value < |s| && s[r.value] == SPACE && forall i | r.value < i < |s| :: s[i] != SPACE
    ensures r.None? ==> forall i | 0 <= i < |s| :: s[i] != SPACE
  {
    if s == [] then None
    else if s[|s| - 1] == SPACE then Some(|s| - 1)
    else LastSpace(s[..|s| - 1])
  }

  lemma {:induction false} LastSpaceOf(a: ByteString, b: ByteString)
    requires forall i | 0 <= i < |b| :: b[i] != SPACE
    ensures LastSpace(a + [SPACE] + b) == Some(|a|)
  {
    var s := a + [SPACE] + b;
    assert s[|a|] == SPACE;
    assert forall i | |a| < i < |s| :: s[i] == b[i - |a| - 1];
  }
}
