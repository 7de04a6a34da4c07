// The string helpers of the problem-file reader: splitting a line on a
// separator, pulling the numbers out of a piece, and finding a school's stop.

module Text {
  import opened Types

  datatype Option<T> = None | Some(value: T)

  // ---------------------------------------------------------------------------
  // Splitting
  // ---------------------------------------------------------------------------

  /** The character at i, or the terminating NUL just past the end. */
  function CharAt(str: string, i: nat): char
  {
    if i < |str| then str[i] else '\0'
  }

  /** The index of the first character at or after i that is not the separator. */
  function SkipSeparators(str: string, splt: char, i: nat): (r: nat)
    requires splt != '\0' && i <= |str|
    ensures i <= r <= |str|
    ensures forall k :: i <= k < r ==> str[k] == splt
    ensures r < |str| ==> str[r] != splt
    decreases |str| - i
  {
    if CharAt(str, i) == splt then SkipSeparators(str, splt, i + 1) else i
  }

  /**
   * The pieces the scanning loop pushes from position (i, j) on: a piece ends
   * at a separator (and scanning goes on after it), at a newline (and
   * scanning stops), or with the last character of the string.
   */
  function Scan(str: string, splt: char, i: nat, j: nat): seq<string>
    requires i <= j
    decreases |str| - j
  {
    if j >= |str| then []
    else if str[j] == splt then [str[i..j]] + Scan(str, splt, j + 1, j + 1)
    else if str[j] == '\n' then [str[i..j]]
    else if j + 1 == |str| then [str[i..j + 1]]
    else Scan(str, splt, i, j + 1)
  }

  /** The pieces split_string pushes before its clean-up loop. */
  function Pieces(str: string, splt: char): seq<string>
    requires splt != '\0'
  {
    var i := SkipSeparators(str, splt, 0);
    Scan(str, splt, i, i + 1)
  }

  /** The pieces written back with one separator between neighbours. */
  function Join(pieces: seq<string>, splt: char): string
  {
    if pieces == [] then ""
    else if |pieces| == 1 then pieces[0]
    else pieces[0] + [splt] + Join(pieces[1..], splt)
  }

  /**
   * Scanning loses nothing in the middle: the pieces, joined by the
   * separator, are a prefix of the text they were cut from.
   */
  lemma {:induction false} ScanIsPrefix(str: string, splt: char, i: nat, j: nat)
    requires i <= j && i <= |str|
    requires forall k :: i <= k < j && k < |str| ==> str[k] != splt
    ensures Join(Scan(str, splt, i, j), splt) <= str[i..]
    decreases |str| - j
  {
    if j >= |str| {
    } else if str[j] == splt {
      var rest := Scan(str, splt, j + 1, j + 1);
      ScanIsPrefix(str, splt, j + 1, j + 1);
      assert str[i..] == str[i..j] + [splt] + str[j + 1..];
      if rest != [] {
        assert Join([str[i..j]] + rest, splt) == str[i..j] + [splt] + Join(rest, splt);
      }
    } else if str[j] == '\n' {
      assert str[i..] == str[i..j] + str[j..];
    } else if j + 1 == |str| {
      assert str[i..j + 1] == str[i..];
    } else {
      ScanIsPrefix(str, splt, i, j + 1);
    }
  }

  /** No piece the scan pushes contains the separator. */
  lemma {:induction false} ScanHasNoSeparator(str: string, splt: char, i: nat, j: nat)
    requires i <= j && i <= |str|
    requires forall k :: i <= k < j && k < |str| ==> str[k] != splt
    ensures forall p :: p in Scan(str, splt, i, j) ==> splt !in p
    decreases |str| - j
  {
    if j >= |str| {
    } else if str[j] == splt {
      ScanHasNoSeparator(str, splt, j + 1, j + 1);
      SliceHasNoSeparator(str, splt, i, j);
    } else if str[j] == '\n' {
      SliceHasNoSeparator(str, splt, i, j);
    } else if j + 1 == |str| {
      SliceHasNoSeparator(str, splt, i, j + 1);
    } else {
      ScanHasNoSeparator(str, splt, i, j + 1);
    }
  }

  lemma SliceHasNoSeparator(str: string, splt: char, i: nat, j: nat)
    requires i <= j <= |str|
    requires forall k :: i <= k < j ==> str[k] != splt
    ensures splt !in str[i..j]
  {
    var p := str[i..j];
    forall k | 0 <= k < |p|
      ensures p[k] != splt
    {
      assert p[k] == str[i + k];
    }
  }

  /**
   * split_string's pieces, joined by the separator, are a prefix of the line
   * after its leading separators, and no piece contains the separator.
   */
  lemma PiecesArePrefix(str: string, splt: char)
    requires splt != '\0'
    ensures Join(Pieces(str, splt), splt) <= str[SkipSeparators(str, splt, 0)..]
    ensures forall p :: p in Pieces(str, splt) ==> splt !in p
  {
    var i := SkipSeparators(str, splt, 0);
    ScanIsPrefix(str, splt, i, i + 1);
    ScanHasNoSeparator(str, splt, i, i + 1);
  }

  /**
   * A newline ends the scan: whatever is pushed from (i, j) on, joined by the
   * separator, is a prefix of the text up to any later newline.
   */
  lemma {:induction false} ScanStopsAtNewline(str: string, splt: char, i: nat, j: nat, k: nat)
    requires i <= j <= k < |str| && str[k] == '\n' && splt != '\n'
    ensures Join(Scan(str, splt, i, j), splt) <= str[i..k]
    decreases |str| - j
  {
    if str[j] == splt {
      var rest := Scan(str, splt, j + 1, j + 1);
      ScanStopsAtNewline(str, splt, j + 1, j + 1, k);
      assert str[i..k] == str[i..j] + [splt] + str[j + 1..k];
      if rest != [] {
        assert Join([str[i..j]] + rest, splt) == str[i..j] + [splt] + Join(rest, splt);
      }
    } else if str[j] == '\n' {
      assert str[i..j] <= str[i..k];
    } else if j + 1 == |str| {
      assert false;
    } else {
      ScanStopsAtNewline(str, splt, i, j + 1, k);
    }
  }

  /**
   * split_string stops at the first newline after the start of the first
   * piece: its pieces, joined, are a prefix of the line up to any such newline.
   */
  lemma PiecesStopAtNewline(str: string, splt: char, k: nat)
    requires splt != '\0' && splt != '\n'
    requires SkipSeparators(str, splt, 0) < k < |str| && str[k] == '\n'
    ensures Join(Pieces(str, splt), splt) <= str[SkipSeparators(str, splt, 0)..k]
  {
    var i := SkipSeparators(str, splt, 0);
    ScanStopsAtNewline(str, splt, i, i + 1, k);
  }

  /** Ordinary characters do not end a piece: scanning moves past them. */
  lemma {:induction false} ScanSkipsPlain(str: string, splt: char, i: nat, j: nat, m: nat)
    requires i <= j <= m < |str|
    requires splt !in str[j..m] && '\n' !in str[j..m]
    ensures Scan(str, splt, i, j) == Scan(str, splt, i, m)
    decreases m - j
  {
    if j < m {
      assert str[j] == str[j..m][0];
      assert str[j + 1..m] == str[j..m][1..];
      ScanSkipsPlain(str, splt, i, j + 1, m);
    }
  }

  /** The next separator at m ends the piece that started at i; scanning resumes after it. */
  lemma ScanPiece(str: string, splt: char, i: nat, j: nat, m: nat)
    requires i <= j <= m < |str| && str[m] == splt
    requires splt !in str[j..m] && '\n' !in str[j..m]
    ensures Scan(str, splt, i, j) == [str[i..m]] + Scan(str, splt, m + 1, m + 1)
  {
    ScanSkipsPlain(str, splt, i, j, m);
  }

  /** Without a later separator or newline, the last piece runs to the end of the string. */
  lemma ScanLastPiece(str: string, splt: char, i: nat, j: nat)
    requires i <= j < |str|
    requires splt !in str[j..] && '\n' !in str[j..]
    ensures Scan(str, splt, i, j) == [str[i..]]
  {
    var m := |str| - 1;
    assert str[j..m] == str[j..][..m - j];
    assert str[m] == str[j..][m - j];
    ScanSkipsPlain(str, splt, i, j, m);
    assert str[i..|str|] == str[i..];
  }

  /** A newline at m ends the piece that started at i, and the scan. */
  lemma ScanNewlinePiece(str: string, splt: char, i: nat, j: nat, m: nat)
    requires i <= j <= m < |str| && str[m] == '\n' && splt != '\n'
    requires splt !in str[j..m] && '\n' !in str[j..m]
    ensures Scan(str, splt, i, j) == [str[i..m]]
  {
    ScanSkipsPlain(str, splt, i, j, m);
  }

  /** No piece holds the separator or a newline. */
  predicate PlainPieces(ps: seq<string>, splt: char)
  {
    forall p :: p in ps ==> splt !in p && '\n' !in p
  }

  /**
   * Scanning a line made of plain pieces joined by the separator gives the
   * pieces back, whether the line then ends, ends with one separator, or goes
   * on after a newline. An empty last piece is lost only when nothing follows
   * it, so that case is excluded.
   */
  lemma {:induction false} ScanJoined(str: string, splt: char, i: nat, j: nat, ps: seq<string>, tail: string)
    requires splt != '\n' && ps != [] && PlainPieces(ps, splt)
    requires i <= j <= i + |ps[0]| && j < |str| && i <= |str|
    requires str[i..] == Join(ps, splt) + tail
    requires tail == [] || tail == [splt] || tail[0] == '\n'
    requires ps[|ps| - 1] != "" || tail != []
    ensures Scan(str, splt, i, j) == ps
    decreases |ps|
  {
    if |ps| == 1 {
      assert ps[0] in ps;
      ScanLastJoined(str, splt, i, j, ps[0], tail);
      assert ps == [ps[0]];
    } else {
      var e := ScanFirstJoined(str, splt, i, j, ps, tail);
      ScanJoined(str, splt, e + 1, e + 1, ps[1..], tail);
      assert ps == [ps[0]] + ps[1..];
    }
  }

  /** The first of several joined pieces ends at a separator; the rest are joined after it. */
  lemma ScanFirstJoined(str: string, splt: char, i: nat, j: nat, ps: seq<string>, tail: string)
      returns (e: nat)
    requires |ps| > 1 && PlainPieces(ps, splt)
    requires i <= j <= i + |ps[0]| && i <= |str|
    requires str[i..] == Join(ps, splt) + tail
    requires ps[|ps| - 1] != "" || tail != []
    ensures e == i + |ps[0]| && e + 1 < |str|
    ensures Scan(str, splt, i, j) == [ps[0]] + Scan(str, splt, e + 1, e + 1)
    ensures str[e + 1..] == Join(ps[1..], splt) + tail
    ensures PlainPieces(ps[1..], splt) && (ps[1..][|ps| - 2] != "" || tail != [])
  {
    var p := ps[0];
    e := i + |p|;
    assert p in ps;
    JoinedFirst(str, splt, i, ps, tail);
    PlainSlice(str, splt, i, j, e, p);
    ScanPiece(str, splt, i, j, e);
    assert ps[1..][|ps| - 2] == ps[|ps| - 1];
    JoinIsEmpty(ps[1..], splt);
  }

  /** The single-piece case of ScanJoined. */
  lemma ScanLastJoined(str: string, splt: char, i: nat, j: nat, p: string, tail: string)
    requires splt != '\n' && splt !in p && '\n' !in p
    requires i <= j <= i + |p| && j < |str| && i <= |str|
    requires str[i..] == p + tail
    requires tail == [] || tail == [splt] || tail[0] == '\n'
    requires p != "" || tail != []
    ensures Scan(str, splt, i, j) == [p]
  {
    var e := i + |p|;
    assert str[i..e] == p;
    PlainSlice(str, splt, i, j, e, p);
    if tail == [] {
      assert str[i..] == p;
      assert str[j..] == str[j..e];
      ScanLastPiece(str, splt, i, j);
    } else {
      assert str[e] == (p + tail)[|p|];
      if tail == [splt] {
        ScanPiece(str, splt, i, j, e);
        assert Scan(str, splt, e + 1, e + 1) == [];
      } else {
        ScanNewlinePiece(str, splt, i, j, e);
      }
    }
  }

  /** A joined line of several pieces: the first piece, a separator, then the rest. */
  lemma JoinedFirst(str: string, splt: char, i: nat, ps: seq<string>, tail: string)
    requires |ps| > 1 && i <= |str| && str[i..] == Join(ps, splt) + tail
    ensures i + |ps[0]| < |str| && str[i..i + |ps[0]|] == ps[0] && str[i + |ps[0]|] == splt
    ensures str[i + |ps[0]| + 1..] == Join(ps[1..], splt) + tail
  {
    var p := ps[0];
    var rest := Join(ps[1..], splt) + tail;
    assert str[i..] == p + [splt] + rest;
    assert str[i..][..|p|] == p;
    assert str[i..][|p|] == splt;
    assert str[i..][|p| + 1..] == rest;
  }

  /** A slice of a plain piece is plain. */
  lemma PlainSlice(str: string, splt: char, i: nat, j: nat, e: nat, p: string)
    requires i <= j <= e <= |str| && str[i..e] == p && splt !in p && '\n' !in p
    ensures splt !in str[j..e] && '\n' !in str[j..e]
  {
    assert str[j..e] == p[j - i..];
    forall c | c in p[j - i..]
      ensures c in p
    {
      var k :| 0 <= k < |p[j - i..]| && p[j - i..][k] == c;
      assert p[j - i + k] == c;
    }
  }

  /** A join is empty only for no pieces or a single empty piece. */
  lemma JoinIsEmpty(ps: seq<string>, splt: char)
    ensures Join(ps, splt) == [] ==> ps == [] || ps == [""]
  {
  }

  /**
   * split_string gives back plain pieces joined by the separator, after any
   * leading separators. The first piece is non-empty, an empty last piece
   * needs something after it, and the line must go on past the first
   * character of the first piece (see SplitDropsOneCharacterLine).
   */
  lemma PiecesOfJoined(str: string, splt: char, lead: nat, ps: seq<string>, tail: string)
    requires splt != '\0' && splt != '\n' && ps != [] && PlainPieces(ps, splt) && ps[0] != ""
    requires lead + 1 < |str| && forall m :: 0 <= m < lead ==> str[m] == splt
    requires str[lead..] == Join(ps, splt) + tail
    requires tail == [] || tail == [splt] || tail[0] == '\n'
    requires ps[|ps| - 1] != "" || tail != []
    ensures Pieces(str, splt) == ps
  {
    assert ps[0] in ps;
    JoinStartsWithFirst(ps, splt);
    assert str[lead] == str[lead..][0];
    SkipLeading(str, splt, lead, 0);
    ScanJoined(str, splt, lead, lead + 1, ps, tail);
  }

  /**
   * The scan starts one past the first piece's first character, so a line
   * of a single character, after any leading separators, yields no piece.
   */
  lemma SplitDropsOneCharacterLine(c: char, splt: char)
    requires splt != '\0' && c != splt
    ensures Pieces([c], splt) == []
  {
  }

  lemma JoinStartsWithFirst(ps: seq<string>, splt: char)
    requires ps != [] && ps[0] != ""
    ensures Join(ps, splt) != [] && Join(ps, splt)[0] == ps[0][0]
  {
  }

  lemma {:induction false} SkipLeading(str: string, splt: char, lead: nat, k: nat)
    requires splt != '\0' && k <= lead < |str| && str[lead] != splt
    requires forall m :: k <= m < lead ==> str[m] == splt
    ensures SkipSeparators(str, splt, k) == lead
    decreases lead - k
  {
    if k < lead {
      SkipLeading(str, splt, lead, k + 1);
    }
  }

  /** The five stop names of the first two test lines are plain and join to "P1 P2 P3 P4 P5". */
  lemma StopNamesParts()
    ensures PlainPieces(["P1", "P2", "P3", "P4", "P5"], ' ') && Join(["P1", "P2", "P3", "P4", "P5"], ' ') == "P1 P2 P3 P4 P5"
  {
    assert ' ' !in "P1" && '\n' !in "P1";
    assert ' ' !in "P2" && '\n' !in "P2";
    assert ' ' !in "P3" && '\n' !in "P3";
    assert ' ' !in "P4" && '\n' !in "P4";
    assert ' ' !in "P5" && '\n' !in "P5";
  }

  /** The first line of test_string_split: a trailing separator adds no piece. */
  lemma SplitTrailingSeparator()
    ensures Pieces("P1 P2 P3 P4 P5 ", ' ') == ["P1", "P2", "P3", "P4", "P5"]
    ensures EraseEmptyAsWritten([] + Pieces("P1 P2 P3 P4 P5 ", ' '), 0) == ["P1", "P2", "P3", "P4", "P5"]
  {
    var s, ps := "P1 P2 P3 P4 P5 ", ["P1", "P2", "P3", "P4", "P5"];
    StopNamesParts();
    assert s[0..] == Join(ps, ' ') + " ";
    PiecesOfJoined(s, ' ', 0, ps, " ");
    CleanUpKeepsNonEmpty(ps);
  }

  /** The second line: a leading separator is skipped and a newline ends the last piece. */
  lemma SplitLeadingSeparatorAndNewline()
    ensures Pieces(" P1 P2 P3 P4 P5\n", ' ') == ["P1", "P2", "P3", "P4", "P5"]
    ensures EraseEmptyAsWritten([] + Pieces(" P1 P2 P3 P4 P5\n", ' '), 0) == ["P1", "P2", "P3", "P4", "P5"]
  {
    var s, ps := " P1 P2 P3 P4 P5\n", ["P1", "P2", "P3", "P4", "P5"];
    StopNamesParts();
    assert s[1..] == Join(ps, ' ') + "\n";
    assert s[0] == ' ';
    PiecesOfJoined(s, ' ', 1, ps, "\n");
    CleanUpKeepsNonEmpty(ps);
  }

  /** The pieces of the line "P1: 1 C2, 2 C3; P4: 1 C3; P5: 1 C2" are plain and join back to it. */
  lemma SplitStopDescriptionsParts()
    ensures PlainPieces(["P1: 1 C2, 2 C3", " P4: 1 C3", " P5: 1 C2"], ';') && Join(["P1: 1 C2, 2 C3", " P4: 1 C3", " P5: 1 C2"], ';') == "P1: 1 C2, 2 C3; P4: 1 C3; P5: 1 C2"
  {
    assert ';' !in "P1: 1 C2, 2 C3" && '\n' !in "P1: 1 C2, 2 C3";
    assert ';' !in " P4: 1 C3" && '\n' !in " P4: 1 C3";
    assert ';' !in " P5: 1 C2" && '\n' !in " P5: 1 C2";
  }

  /** The third line: three stop descriptions, the last running to the end. */
  lemma SplitStopDescriptions()
    ensures Pieces("P1: 1 C2, 2 C3; P4: 1 C3; P5: 1 C2", ';') == ["P1: 1 C2, 2 C3", " P4: 1 C3", " P5: 1 C2"]
    ensures EraseEmptyAsWritten([] + Pieces("P1: 1 C2, 2 C3; P4: 1 C3; P5: 1 C2", ';'), 0) == ["P1: 1 C2, 2 C3", " P4: 1 C3", " P5: 1 C2"]
  {
    var s, ps := "P1: 1 C2, 2 C3; P4: 1 C3; P5: 1 C2", ["P1: 1 C2, 2 C3", " P4: 1 C3", " P5: 1 C2"];
    SplitStopDescriptionsParts();
    assert s[0..] == Join(ps, ';') + "";
    PiecesOfJoined(s, ';', 0, ps, "");
    CleanUpKeepsNonEmpty(ps);
  }

  /** The pieces of the line "C1: P6; C2: P3; C3: P8" are plain and join back to it. */
  lemma SplitSchoolDescriptionsParts()
    ensures PlainPieces(["C1: P6", " C2: P3", " C3: P8"], ';') && Join(["C1: P6", " C2: P3", " C3: P8"], ';') == "C1: P6; C2: P3; C3: P8"
  {
    assert ';' !in "C1: P6" && '\n' !in "C1: P6";
    assert ';' !in " C2: P3" && '\n' !in " C2: P3";
    assert ';' !in " C3: P8" && '\n' !in " C3: P8";
  }

  /** The fourth line: three school descriptions. */
  lemma SplitSchoolDescriptions()
    ensures Pieces("C1: P6; C2: P3; C3: P8", ';') == ["C1: P6", " C2: P3", " C3: P8"]
    ensures EraseEmptyAsWritten([] + Pieces("C1: P6; C2: P3; C3: P8", ';'), 0) == ["C1: P6", " C2: P3", " C3: P8"]
  {
    var s, ps := "C1: P6; C2: P3; C3: P8", ["C1: P6", " C2: P3", " C3: P8"];
    SplitSchoolDescriptionsParts();
    assert s[0..] == Join(ps, ';') + "";
    PiecesOfJoined(s, ';', 0, ps, "");
    CleanUpKeepsNonEmpty(ps);
  }

  /**
   * test_string_split: the four lines split into five, five, three and three
   * pieces, split_string being called each time with an empty vector.
   */
  method TestStringSplit() returns (v1: seq<string>, v2: seq<string>, v3: seq<string>, v4: seq<string>)
    ensures |v1| == 5 && |v2| == 5 && |v3| == 3 && |v4| == 3
    ensures v1 == v2 == ["P1", "P2", "P3", "P4", "P5"]
    ensures v3 == ["P1: 1 C2, 2 C3", " P4: 1 C3", " P5: 1 C2"]
    ensures v4 == ["C1: P6", " C2: P3", " C3: P8"]
  {
    v1 := SplitString("P1 P2 P3 P4 P5 ", [], ' ');
    SplitTrailingSeparator();
    v2 := SplitString(" P1 P2 P3 P4 P5\n", [], ' ');
    SplitLeadingSeparatorAndNewline();
    v3 := SplitString("P1: 1 C2, 2 C3; P4: 1 C3; P5: 1 C2", [], ';');
    SplitStopDescriptions();
    v4 := SplitString("C1: P6; C2: P3; C3: P8", [], ';');
    SplitSchoolDescriptions();
  }

  /**
   * The clean-up loop as written: it erases an empty piece and then steps
   * past the element that moved into its place, so that element is never
   * examined.
   */
  function EraseEmptyAsWritten(vec: seq<string>, k: nat): seq<string>
    decreases |vec| - k
  {
    if k >= |vec| then vec
    else if vec[k] == "" then EraseEmptyAsWritten(vec[..k] + vec[k + 1..], k + 1)
    else EraseEmptyAsWritten(vec, k + 1)
  }

  /** The evidently intended clean-up: every empty piece removed, the others kept in order. */
  function RemoveEmpty(vec: seq<string>): (r: seq<string>)
    ensures forall p :: p in r ==> p != "" && p in vec
    ensures forall p :: p in vec && p != "" ==> p in r
    ensures |r| <= |vec|
  {
    if vec == [] then []
    else (if vec[0] == "" then [] else [vec[0]]) + RemoveEmpty(vec[1..])
  }

  /** split_string: skip leading separators, scan, append to vec, then the clean-up loop as written. */
  method SplitString(str: string, vec: seq<string>, splt: char) returns (out: seq<string>)
    requires splt != '\0'
    ensures out == EraseEmptyAsWritten(vec + Pieces(str, splt), 0)
  {
    var i := 0;
    while CharAt(str, i) == splt
      invariant 0 <= i <= |str|
      invariant SkipSeparators(str, splt, 0) == SkipSeparators(str, splt, i)
      decreases |str| - i
    {
      i := i + 1;
    }
    var i0 := i;
    assert i0 == SkipSeparators(str, splt, 0);
    out := vec;
    var j := i + 1;
    while j < |str|
      invariant i <= j
      invariant out + Scan(str, splt, i, j) == vec + Scan(str, splt, i0, i0 + 1)
      decreases |str| - j
    {
      if str[j] == splt {
        out := out + [str[i..j]];
        i := j + 1;
        j := j + 1;
      } else if str[j] == '\n' {
        out := out + [str[i..j]];
        break;
      } else if j + 1 == |str| {
        out := out + [str[i..j + 1]];
        break;
      } else {
        j := j + 1;
      }
    }
    assert out == vec + Pieces(str, splt);
    out := EraseEmpty(out);
  }

  /** The clean-up loop over the whole vector, as written. */
  method EraseEmpty(vec: seq<string>) returns (out: seq<string>)
    ensures out == EraseEmptyAsWritten(vec, 0)
  {
    out := vec;
    var k := 0;
    while k < |out|
      invariant EraseEmptyAsWritten(out, k) == EraseEmptyAsWritten(vec, 0)
      decreases |out| - k
    {
      if out[k] == "" {
        out := out[..k] + out[k + 1..];
      }
      k := k + 1;
    }
  }

  /** Two empty pieces in a row: the clean-up loop as written keeps the second one. */
  lemma EraseEmptyMissesNeighbour()
    ensures EraseEmptyAsWritten(["a", "", "", "b"], 0) == ["a", "", "b"]
    ensures RemoveEmpty(["a", "", "", "b"]) == ["a", "b"]
  {
    assert ["a", "", "", "b"][..1] + ["a", "", "", "b"][2..] == ["a", "", "b"];
    assert EraseEmptyAsWritten(["a", "", "b"], 2) == ["a", "", "b"];
  }

  /** Without two empty pieces in a row, the loop as written removes every empty piece. */
  lemma {:induction false} EraseEmptyCorrectWithoutNeighbours(vec: seq<string>, k: nat)
    requires forall m :: 0 <= m < k && m < |vec| ==> vec[m] != ""
    requires forall m :: k <= m < |vec| - 1 ==> vec[m] != "" || vec[m + 1] != ""
    ensures EraseEmptyAsWritten(vec, k) == RemoveEmpty(vec)
    decreases |vec| - k
  {
    if k < |vec| {
      if vec[k] == "" {
        var v' := vec[..k] + vec[k + 1..];
        if k + 1 < |vec| {
          assert v'[k] == vec[k + 1];
          assert vec[k] != "" || vec[k + 1] != "";
        }
        forall m | 0 <= m < k + 1 && m < |v'|
          ensures v'[m] != ""
        {
          if m < k {
            assert v'[m] == vec[m];
          }
        }
        forall m | k + 1 <= m < |v'| - 1
          ensures v'[m] != "" || v'[m + 1] != ""
        {
          assert v'[m] == vec[m + 1] && v'[m + 1] == vec[m + 2];
        }
        EraseEmptyCorrectWithoutNeighbours(v', k + 1);
        RemoveEmptyDrop(vec, k);
      } else {
        EraseEmptyCorrectWithoutNeighbours(vec, k + 1);
      }
    } else {
      RemoveEmptyKeepsAll(vec);
    }
  }

  /** Dropping an empty piece does not change the intended clean-up. */
  lemma {:induction false} RemoveEmptyDrop(vec: seq<string>, k: nat)
    requires k < |vec| && vec[k] == ""
    ensures RemoveEmpty(vec[..k] + vec[k + 1..]) == RemoveEmpty(vec)
    decreases k
  {
    if k > 0 {
      assert (vec[..k] + vec[k + 1..])[1..] == vec[1..][..k - 1] + vec[1..][k..];
      RemoveEmptyDrop(vec[1..], k - 1);
    } else {
      assert vec[..k] + vec[k + 1..] == vec[1..];
    }
  }

  /** With no empty piece, the clean-up loop as written changes nothing. */
  lemma CleanUpKeepsNonEmpty(vec: seq<string>)
    requires forall m :: 0 <= m < |vec| ==> vec[m] != ""
    ensures EraseEmptyAsWritten([] + vec, 0) == vec
  {
    assert [] + vec == vec;
    EraseEmptyCorrectWithoutNeighbours(vec, 0);
    RemoveEmptyKeepsAll(vec);
  }

  lemma {:induction false} RemoveEmptyKeepsAll(vec: seq<string>)
    requires forall m :: 0 <= m < |vec| ==> vec[m] != ""
    ensures RemoveEmpty(vec) == vec
    decreases |vec|
  {
    if vec != [] {
      RemoveEmptyKeepsAll(vec[1..]);
    }
  }

  // ---------------------------------------------------------------------------
  // Numbers in text
  // ---------------------------------------------------------------------------

  predicate IsDigit(c: char)
  {
    '0' <= c <= '9'
  }

  /** The value of a string of decimal digits; the empty string has none. */
  function DigitsValue(s: string): nat
    requires forall k :: 0 <= k < |s| ==> IsDigit(s[k])
  {
    if s == [] then 0
    else
      assert IsDigit(s[|s| - 1]);
      10 * DigitsValue(s[..|s| - 1]) + ((s[|s| - 1] as int) - ('0' as int))
  }

  /** The decimal digits of n, without leading zeros. */
  function NatToString(n: nat): (s: string)
    ensures s != [] && forall k :: 0 <= k < |s| ==> IsDigit(s[k])
  {
    if n < 10 then [('0' as int + n) as char]
    else NatToString(n / 10) + [('0' as int + n % 10) as char]
  }

  /** The decimal text of an int, with a minus sign when negative. */
  function IntToString(i: int): string
  {
    if i < 0 then "-" + NatToString(-i) else NatToString(i)
  }

  /** Reading back the digits of n gives n. */
  lemma {:induction false} NatToStringRoundTrip(n: nat)
    ensures DigitsValue(NatToString(n)) == n
    decreases n
  {
    if n >= 10 {
      NatToStringRoundTrip(n / 10);
      var s := NatToString(n);
      assert s[..|s| - 1] == NatToString(n / 10);
    }
  }

  /**
   * What extract_alphanumerics_in_order appends for the text `str` when
   * `run` digits are already collected: each maximal run of digits as a
   * number, in order, the last run pushed unconditionally. An empty last
   * run cannot be converted, which is the None result.
   */
  function Extract(str: string, acc: seq<nat>, run: string): Option<seq<nat>>
    requires forall k :: 0 <= k < |run| ==> IsDigit(run[k])
    decreases |str|
  {
    if str == [] then (if run == [] then None else Some(acc + [DigitsValue(run)]))
    else if IsDigit(str[0]) then Extract(str[1..], acc, run + [str[0]])
    else if run != [] then Extract(str[1..], acc + [DigitsValue(run)], [])
    else Extract(str[1..], acc, [])
  }

  /** extract_alphanumerics_in_order: collect digits, push a number at each non-digit that ends a run, push the last run. */
  method ExtractAlphanumerics(str: string, result: seq<nat>) returns (out: Option<seq<nat>>)
    ensures out == Extract(str, result, [])
  {
    var digit: string := [];
    var acc := result;
    var k := 0;
    while k < |str|
      invariant 0 <= k <= |str|
      invariant forall m :: 0 <= m < |digit| ==> IsDigit(digit[m])
      invariant Extract(str[k..], acc, digit) == Extract(str, result, [])
    {
      assert str[k..][1..] == str[k + 1..];
      if IsDigit(str[k]) {
        digit := digit + [str[k]];
      } else if digit != [] {
        acc := acc + [DigitsValue(digit)];
        digit := [];
      }
      k := k + 1;
    }
    if digit == [] {
      return None;
    }
    out := Some(acc + [DigitsValue(digit)]);
  }

  /** The conversion of the last run fails exactly when the text does not end in a digit. */
  lemma {:induction false} ExtractFailsWithoutFinalDigit(str: string, acc: seq<nat>, run: string)
    requires forall k :: 0 <= k < |run| ==> IsDigit(run[k])
    ensures Extract(str, acc, run) == None <==>
              if str == [] then run == [] else !IsDigit(str[|str| - 1])
    decreases |str|
  {
    if str != [] {
      var run' := if IsDigit(str[0]) then run + [str[0]] else [];
      var acc' := if !IsDigit(str[0]) && run != [] then acc + [DigitsValue(run)] else acc;
      ExtractFailsWithoutFinalDigit(str[1..], acc', run');
      if |str| > 1 {
        assert str[1..][|str[1..]| - 1] == str[|str| - 1];
      }
    }
  }

  /** A block of digits just extends the current run. */
  lemma {:induction false} ExtractDigits(digits: string, rest: string, acc: seq<nat>, run: string)
    requires forall k :: 0 <= k < |run| ==> IsDigit(run[k])
    requires forall k :: 0 <= k < |digits| ==> IsDigit(digits[k])
    ensures Extract(digits + rest, acc, run) == Extract(rest, acc, run + digits)
    decreases |digits|
  {
    if digits != [] {
      assert (digits + rest)[0] == digits[0];
      assert (digits + rest)[1..] == digits[1..] + rest;
      assert run + [digits[0]] + digits[1..] == run + digits;
      ExtractDigits(digits[1..], rest, acc, run + [digits[0]]);
    } else {
      assert digits + rest == rest && run + digits == run;
    }
  }

  /**
   * A school line piece " C<a>: P<b>" reads back as the two numbers a and b,
   * in that order.
   */
  lemma SchoolPieceRoundTrip(a: nat, b: nat, acc: seq<nat>)
    ensures Extract(" C" + NatToString(a) + ": P" + NatToString(b), acc, []) == Some(acc + [a, b])
  {
    var sa, sb := NatToString(a), NatToString(b);
    var tail := " P" + sb;
    assert " C" + sa + ": P" + sb == " C" + sa + ([':'] + tail);
    ExtractLabelledNumber(" C", a, ':', tail, acc);
    ExtractSkipLabel(" P", sb, acc + [a]);
    ExtractDigits(sb, [], acc + [a], []);
    assert sb + [] == sb && [] + sb == sb;
    NatToStringRoundTrip(b);
    assert acc + [a] + [b] == acc + [a, b];
  }

  /** Leading non-digits before any run is open are skipped. */
  lemma {:induction false} ExtractSkipLabel(lead: string, rest: string, acc: seq<nat>)
    requires forall k :: 0 <= k < |lead| ==> !IsDigit(lead[k])
    ensures Extract(lead + rest, acc, []) == Extract(rest, acc, [])
    decreases |lead|
  {
    if lead != [] {
      assert lead + rest == [lead[0]] + (lead[1..] + rest);
      ExtractNonDigit(lead[0], lead[1..] + rest, acc, []);
      ExtractSkipLabel(lead[1..], rest, acc);
    } else {
      assert lead + rest == rest;
    }
  }

  /** A non-digit prefix, a number and a non-digit: the number is pushed and reading goes on after the non-digit. */
  lemma ExtractLabelledNumber(lead: string, n: nat, c: char, rest: string, acc: seq<nat>)
    requires forall k :: 0 <= k < |lead| ==> !IsDigit(lead[k])
    requires !IsDigit(c)
    ensures Extract(lead + NatToString(n) + ([c] + rest), acc, []) == Extract(rest, acc + [n], [])
  {
    var sn := NatToString(n);
    assert lead + sn + ([c] + rest) == lead + (sn + ([c] + rest));
    ExtractSkipLabel(lead, sn + ([c] + rest), acc);
    ExtractDigits(sn, [c] + rest, acc, []);
    assert [] + sn == sn;
    ExtractNonDigit(c, rest, acc, sn);
    NatToStringRoundTrip(n);
  }

  /** A character that is not a digit closes the current run, if there is one. */
  lemma ExtractNonDigit(c: char, rest: string, acc: seq<nat>, run: string)
    requires forall k :: 0 <= k < |run| ==> IsDigit(run[k])
    requires !IsDigit(c)
    ensures Extract([c] + rest, acc, run)
            == if run != [] then Extract(rest, acc + [DigitsValue(run)], []) else Extract(rest, acc, [])
  {
    assert ([c] + rest)[1..] == rest;
  }

  /** The documented example: " C2: P3" gives [2, 3]. */
  method ExtractExample() returns (nums: Option<seq<nat>>)
    ensures nums == Some([2, 3])
  {
    nums := ExtractAlphanumerics(" C2: P3", []);
    SchoolPieceRoundTrip(2, 3, []);
    assert ('0' as int + 2) as char == '2' && ('0' as int + 3) as char == '3';
    assert NatToString(2) == "2" && NatToString(3) == "3";
    assert " C" + NatToString(2) + ": P" + NatToString(3) == " C2: P3";
    assert [] + [2, 3] == [2, 3];
  }

  // ---------------------------------------------------------------------------
  // Schools
  // ---------------------------------------------------------------------------

  /** The stop of the first school with this id, or -1. */
  function SchoolStation(schoolId: nat, schools: seq<School>): (r: int)
    ensures r == -1 <==> forall k :: 0 <= k < |schools| ==> schools[k].id != schoolId
    ensures r != -1 ==> exists k :: 0 <= k < |schools| && schools[k].id == schoolId && r == schools[k].stationId
                                    && forall m :: 0 <= m < k ==> schools[m].id != schoolId
  {
    if schools == [] then -1
    else if schools[0].id == schoolId then schools[0].stationId
    else
      var r := SchoolStation(schoolId, schools[1..]);
      assert forall k :: 1 <= k < |schools| ==> schools[k] == schools[1..][k - 1];
      r
  }

  /** The id of the first school located at this stop, or -1. */
  function SchoolAt(stationId: nat, schools: seq<School>): (r: int)
    ensures r == -1 <==> forall k :: 0 <= k < |schools| ==> schools[k].stationId != stationId
    ensures r != -1 ==> exists k :: 0 <= k < |schools| && schools[k].stationId == stationId && r == schools[k].id
                                    && forall m :: 0 <= m < k ==> schools[m].stationId != stationId
  {
    if schools == [] then -1
    else if schools[0].stationId == stationId then schools[0].id
    else
      var r := SchoolAt(stationId, schools[1..]);
      assert forall k :: 1 <= k < |schools| ==> schools[k] == schools[1..][k - 1];
      r
  }

  /** No two schools share an id or a stop. */
  predicate DistinctSchools(schools: seq<School>)
  {
    forall i, j :: 0 <= i < j < |schools| ==>
      schools[i].id != schools[j].id && schools[i].stationId != schools[j].stationId
  }

  /** With distinct schools, looking up a school's stop and then the school at that stop gives the school back. */
  lemma SchoolLookupsAreInverse(schoolId: nat, schools: seq<School>)
    requires DistinctSchools(schools)
    requires SchoolStation(schoolId, schools) != -1
    ensures SchoolAt(SchoolStation(schoolId, schools) as nat, schools) == schoolId as int
  {
    var st := SchoolStation(schoolId, schools);
    var k :| 0 <= k < |schools| && schools[k].id == schoolId && st == schools[k].stationId;
    var r := SchoolAt(st as nat, schools);
    var m :| 0 <= m < |schools| && schools[m].stationId == st && r == schools[m].id;
    assert schools[m].stationId == schools[k].stationId;
    assert m == k;
  }

  /** findSchoolStationOnList: the first school with this id gives its stop. */
  method FindSchoolStationOnList(schoolId: nat, schools: seq<School>) returns (r: int)
    ensures r == SchoolStation(schoolId, schools)
  {
    var k := 0;
    while k < |schools|
      invariant 0 <= k <= |schools|
      invariant SchoolStation(schoolId, schools[k..]) == SchoolStation(schoolId, schools)
    {
      assert schools[k..][1..] == schools[k + 1..];
      if schools[k].id == schoolId {
        return schools[k].stationId;
      }
      k := k + 1;
    }
    r := -1;
  }
}
