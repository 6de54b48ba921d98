/**
 * The cell normalizers of the member import: blank-to-absent trimming
 * (`safe_str`), the skills list (`parse_skills`) and the academic-level
 * bucket (`normalize_academic_level`).
 */
module Normalizers {
  import opened Wrappers
  import opened PyStr

  /** A spreadsheet cell read as text; `None` is a blank cell (what `pd.isna` reports). */
  type Cell = Option<string>

  // ---------------------------------------------------------------------------
  // safe_str

  /**
   * `safe_str`: a blank cell, or one holding only whitespace, becomes absent;
   * any other cell becomes its text with the surrounding whitespace cut off.
   */
  function SafeStr(cell: Cell): (r: Option<string>)
    ensures cell.None? ==> r.None?
    ensures cell.Some? ==> (r.None? <==> AllSpace(cell.value))
    ensures r.Some? ==> r.value != [] && IsStripped(r.value)
    ensures r.Some? ==> OccursAt(cell.value, r.value, LeadingSpace(cell.value))
    ensures r.Some? ==>
      AllSpace(cell.value[..LeadingSpace(cell.value)]) && AllSpace(cell.value[LeadingSpace(cell.value) + |r.value|..])
  {
    match cell
    case None => None
    case Some(text) =>
      var t := Strip(text);
      if t == [] then None else Some(t)
  }

  /** Text that is already trimmed and non-empty passes through `safe_str` unchanged. */
  lemma SafeStrKeepsTrimmed(text: string)
    requires text != [] && IsStripped(text)
    ensures SafeStr(Some(text)) == Some(text)
  {
    StripStripped(text);
  }

  /** `safe_str` is idempotent: applying it to its own result changes nothing. */
  lemma SafeStrIdempotent(cell: Cell)
    ensures SafeStr(SafeStr(cell)) == SafeStr(cell)
  {
    if SafeStr(cell).Some? {
      SafeStrKeepsTrimmed(SafeStr(cell).value);
    }
  }

  // ---------------------------------------------------------------------------
  // parse_skills

  /** The stripped pieces that are not empty, in their original order. */
  function KeepTrimmed(pieces: seq<string>): (r: seq<string>)
    ensures |r| <= |pieces|
    ensures forall i :: 0 <= i < |r| ==> r[i] != [] && IsStripped(r[i])
    decreases |pieces|
  {
    if pieces == [] then []
    else
      var rest := KeepTrimmed(pieces[1..]);
      var t := Strip(pieces[0]);
      if t != [] then [t] + rest else rest
  }

  /** A character that no piece holds is held by no kept piece. */
  lemma {:induction false} KeepTrimmedAvoids(pieces: seq<string>, x: char)
    requires forall j :: 0 <= j < |pieces| ==> x !in pieces[j]
    ensures forall i :: 0 <= i < |KeepTrimmed(pieces)| ==> x !in KeepTrimmed(pieces)[i]
    decreases |pieces|
  {
    if pieces != [] {
      KeepTrimmedAvoids(pieces[1..], x);
      assert x !in pieces[0];
    }
  }

  /** Pieces that are already stripped and non-empty are all kept, unchanged. */
  lemma {:induction false} KeepTrimmedOfTrimmed(pieces: seq<string>)
    requires forall i :: 0 <= i < |pieces| ==> pieces[i] != [] && IsStripped(pieces[i])
    ensures KeepTrimmed(pieces) == pieces
    decreases |pieces|
  {
    if pieces != [] {
      StripStripped(pieces[0]);
      KeepTrimmedOfTrimmed(pieces[1..]);
    }
  }

  /**
   * `parse_skills`: a blank cell gives no skills; otherwise `;` counts as `,`,
   * the text is split on `,`, and each piece is stripped, empty pieces dropped.
   * Every skill is non-empty, has no whitespace at its ends and holds neither
   * separator.
   */
  function ParseSkills(cell: Cell): (r: seq<string>)
    ensures cell.None? ==> r == []
    ensures forall i :: 0 <= i < |r| ==> r[i] != [] && IsStripped(r[i])
    ensures forall i :: 0 <= i < |r| ==> ',' !in r[i] && ';' !in r[i]
  {
    match cell
    case None => []
    case Some(text) =>
      var commas := ReplaceChar(text, ';', ',');
      var pieces := Split(commas, ',');
      SplitAvoids(commas, ',', ';');
      KeepTrimmedAvoids(pieces, ',');
      KeepTrimmedAvoids(pieces, ';');
      KeepTrimmed(pieces)
  }

  /**
   * Pieces written one after another with one separator in each gap; in a
   * skills cell each separator is `,` or `;`, and the two may be mixed.
   */
  function JoinWith(pieces: seq<string>, seps: seq<char>): string
    requires |seps| + 1 == |pieces|
    decreases |pieces|
  {
    if |pieces| == 1 then pieces[0]
    else pieces[0] + [seps[0]] + JoinWith(pieces[1..], seps[1..])
  }

  /** Every separator is `,` or `;`. */
  predicate SkillSeparators(seps: seq<char>) {
    forall i :: 0 <= i < |seps| ==> seps[i] == ',' || seps[i] == ';'
  }

  /**
   * Replacing `;` by `,` in `;`-free pieces joined by any mix of `,` and `;`
   * gives the pieces joined by `,` alone.
   */
  lemma {:induction false} ReplaceInJoinWith(pieces: seq<string>, seps: seq<char>)
    requires |seps| + 1 == |pieces|
    requires SkillSeparators(seps)
    requires forall i :: 0 <= i < |pieces| ==> ';' !in pieces[i]
    ensures ReplaceChar(JoinWith(pieces, seps), ';', ',') == Join(pieces, ',')
    decreases |pieces|
  {
    ReplaceAbsent(pieces[0], ';', ',');
    if |pieces| > 1 {
      ReplaceInJoinWith(pieces[1..], seps[1..]);
      var tail := JoinWith(pieces[1..], seps[1..]);
      assert JoinWith(pieces, seps) == pieces[0] + [seps[0]] + tail;
      assert ReplaceChar(pieces[0] + [seps[0]] + tail, ';', ',')
          == ReplaceChar(pieces[0], ';', ',') + [','] + ReplaceChar(tail, ';', ',');
    }
  }

  /** The first piece is kept, stripped, unless it strips to nothing. */
  lemma KeepTrimmedCons(x: string, rest: seq<string>)
    ensures KeepTrimmed([x] + rest) == if Strip(x) != [] then [Strip(x)] + KeepTrimmed(rest) else KeepTrimmed(rest)
  {
    assert ([x] + rest)[1..] == rest;
  }

  /**
   * Separator-free pieces written one after another, with `,` or `;` in each
   * gap (mixed as the writer pleases), are read back one skill per piece:
   * stripped, and left out when the piece is blank.
   */
  lemma ParseSkillsOfPieces(pieces: seq<string>, seps: seq<char>)
    requires |seps| + 1 == |pieces|
    requires SkillSeparators(seps)
    requires forall i :: 0 <= i < |pieces| ==> ',' !in pieces[i] && ';' !in pieces[i]
    ensures ParseSkills(Some(JoinWith(pieces, seps))) == KeepTrimmed(pieces)
  {
    ReplaceInJoinWith(pieces, seps);
    SplitJoin(pieces, ',');
  }

  /**
   * Skills written one after another, with `,` or `;` in each gap, are read
   * back as exactly those skills, in the same order and with repeats kept.
   */
  lemma ParseSkillsOfJoined(tokens: seq<string>, seps: seq<char>)
    requires |seps| + 1 == |tokens|
    requires SkillSeparators(seps)
    requires forall i :: 0 <= i < |tokens| ==> tokens[i] != [] && IsStripped(tokens[i])
    requires forall i :: 0 <= i < |tokens| ==> ',' !in tokens[i] && ';' !in tokens[i]
    ensures ParseSkills(Some(JoinWith(tokens, seps))) == tokens
  {
    ParseSkillsOfPieces(tokens, seps);
    KeepTrimmedOfTrimmed(tokens);
  }

  /** An empty cell (not a blank one) gives no skills either. */
  lemma ParseSkillsOfEmpty()
    ensures ParseSkills(Some([])) == []
  {
    assert ReplaceChar([], ';', ',') == [];
    assert Split([], ',') == [[]];
    KeepTrimmedCons([], []);
  }

  /** The first piece is kept, stripped, when it does not strip to nothing. */
  lemma KeepTrimmedKept(x: string, rest: seq<string>, r: seq<string>)
    requires Strip(x) != [] && KeepTrimmed(rest) == r
    ensures KeepTrimmed([x] + rest) == [Strip(x)] + r
  {
    KeepTrimmedCons(x, rest);
  }

  /** The first piece is dropped when it strips to nothing. */
  lemma KeepTrimmedDropped(x: string, rest: seq<string>, r: seq<string>)
    requires Strip(x) == [] && KeepTrimmed(rest) == r
    ensures KeepTrimmed([x] + rest) == r
  {
    KeepTrimmedCons(x, rest);
  }

  /** Four pieces of which the third strips to nothing are read back as the other three, stripped. */
  lemma KeepTrimmedFour(p0: string, p1: string, p2: string, p3: string)
    requires Strip(p0) != [] && Strip(p1) != [] && Strip(p2) == [] && Strip(p3) != []
    ensures KeepTrimmed([p0, p1, p2, p3]) == [Strip(p0), Strip(p1), Strip(p3)]
  {
    var q3: seq<string> := [p3];
    var q2 := [p2] + q3;
    var q1 := [p1] + q2;
    var e: seq<string> := [];
    assert [p0] + q1 == [p0, p1, p2, p3];
    assert [Strip(p0)] + ([Strip(p1)] + [Strip(p3)]) == [Strip(p0), Strip(p1), Strip(p3)];
    assert q3 == [p3] + e;
    KeepTrimmedKept(p3, e, e);
    KeepTrimmedDropped(p2, q3, [Strip(p3)]);
    KeepTrimmedKept(p1, q2, [Strip(p3)]);
    KeepTrimmedKept(p0, q1, [Strip(p1)] + [Strip(p3)]);
  }

  /**
   * Three skills written as `a; b, , c` (both separators and an empty entry)
   * are read back as `[a, b, c]`.
   */
  lemma ParseSkillsMixed(a: string, b: string, c: string)
    requires a != [] && IsStripped(a) && ',' !in a && ';' !in a
    requires b != [] && IsStripped(b) && ',' !in b && ';' !in b
    requires c != [] && IsStripped(c) && ',' !in c && ';' !in c
    ensures ParseSkills(Some(a + "; " + b + ", , " + c)) == [a, b, c]
  {
    var sb, sp, sc := [' '] + b, [' '], [' '] + c;
    var pieces := [a, sb, sp, sc];
    var seps := [';', ',', ','];
    assert pieces[3..] == [sc] && seps[3..] == [];
    var t2 := sp + [','] + sc;
    assert pieces[2..] == [sp, sc] && seps[2..] == [','];
    assert JoinWith(pieces[2..], seps[2..]) == t2;
    var t1 := sb + [','] + t2;
    assert pieces[1..] == [sb, sp, sc] && seps[1..] == [',', ','];
    assert JoinWith(pieces[1..], seps[1..]) == t1;
    assert JoinWith(pieces, seps) == a + [';'] + t1;
    assert a + [';'] + t1 == a + "; " + b + ", , " + c;
    ParseSkillsOfPieces(pieces, seps);
    StripStripped(a);
    StripSpaceCons(' ', b);
    StripStripped(b);
    StripSpaceCons(' ', c);
    StripStripped(c);
    assert AllSpace(sp);
    KeepTrimmedFour(a, sb, sp, sc);
  }

  /** The mixed cell `"Python; SQL, , R"` gives `["Python", "SQL", "R"]`. */
  lemma ParseSkillsMixedExample()
    ensures ParseSkills(Some("Python; SQL, , R")) == ["Python", "SQL", "R"]
  {
    assert "Python" + "; " + "SQL" + ", , " + "R" == "Python; SQL, , R";
    ParseSkillsMixed("Python", "SQL", "R");
  }

  // ---------------------------------------------------------------------------
  // normalize_academic_level

  /** The words looked for, each free of whitespace. */
  lemma LevelWords()
    ensures IsWord("licenciatura") && IsWord("posgrado") && IsWord("maestr") && IsWord("doctor")
    ensures IsWord("curso") && IsWord("actualizaci\U{F3}n")
  {
  }

  /**
   * The bucket of a lower-cased text: the first key word found decides, in
   * the order licenciatura, posgrado ("posgrado", "maestr", "doctor"), curso
   * ("curso", "actualización"); a text with none of them has no bucket.
   */
  function LevelBucket(v: string): Option<string> {
    if Contains(v, "licenciatura") then Some("licenciatura")
    else if Contains(v, "posgrado") || Contains(v, "maestr") || Contains(v, "doctor") then Some("posgrado")
    else if Contains(v, "curso") || Contains(v, "actualizaci\U{F3}n") then Some("curso")
    else None
  }

  /** The same key words occur in `a` and in `b`. */
  predicate SameLevelWords(a: string, b: string) {
    && (Contains(a, "licenciatura") <==> Contains(b, "licenciatura"))
    && (Contains(a, "posgrado") <==> Contains(b, "posgrado"))
    && (Contains(a, "maestr") <==> Contains(b, "maestr"))
    && (Contains(a, "doctor") <==> Contains(b, "doctor"))
    && (Contains(a, "curso") <==> Contains(b, "curso"))
    && (Contains(a, "actualizaci\U{F3}n") <==> Contains(b, "actualizaci\U{F3}n"))
  }

  /** Texts with the same key words fall in the same bucket. */
  lemma SameLevelWordsSameBucket(a: string, b: string)
    requires SameLevelWords(a, b)
    ensures LevelBucket(a) == LevelBucket(b)
  {
  }

  /** Whitespace cut off both ends of a text does not change which key words occur in it. */
  lemma TrimmedSameLevelWords(text: string, i: nat, j: nat)
    requires i <= j <= |text|
    requires AllSpace(text[..i]) && AllSpace(text[j..])
    ensures SameLevelWords(text[i..j], text)
  {
    LevelWords();
    ContainsTrimmed(text, i, j, "licenciatura");
    ContainsTrimmed(text, i, j, "posgrado");
    ContainsTrimmed(text, i, j, "maestr");
    ContainsTrimmed(text, i, j, "doctor");
    ContainsTrimmed(text, i, j, "curso");
    ContainsTrimmed(text, i, j, "actualizaci\U{F3}n");
  }

  /**
   * `normalize_academic_level`: the lower-cased, stripped text is searched for
   * key words in a fixed order of priority. The result is one of the three
   * buckets or absent, and a text mentioning "licenciatura" is a licenciatura
   * whatever else it says.
   */
  function NormalizeAcademicLevel(cell: Cell): (r: Option<string>)
    ensures r == None || r == Some("licenciatura") || r == Some("posgrado") || r == Some("curso")
    ensures cell.None? ==> r == None
    ensures cell.Some? && Contains(Lower(cell.value), "licenciatura") ==> r == Some("licenciatura")
  {
    match cell
    case None => None
    case Some(text) =>
      LevelWords();
      ContainsStrip(Lower(text), "licenciatura");
      LevelBucket(Strip(Lower(text)))
  }

  /**
   * Stripping before the search makes no difference: the bucket is decided by
   * the key words found anywhere in the lower-cased text.
   */
  lemma AcademicLevelByWords(text: string)
    ensures NormalizeAcademicLevel(Some(text)) == LevelBucket(Lower(text))
  {
    var low := Lower(text);
    var r := Strip(low);
    var n := LeadingSpace(low);
    assert r == low[n..n + |r|];
    TrimmedSameLevelWords(low, n, n + |r|);
    SameLevelWordsSameBucket(r, low);
  }

  /** The bucket does not depend on letter case. */
  lemma AcademicLevelIgnoresCase(text: string)
    ensures NormalizeAcademicLevel(Some(Lower(text))) == NormalizeAcademicLevel(Some(text))
  {
    LowerIdempotent(text);
  }

  /** The bucket does not depend on whitespace around the text. */
  lemma AcademicLevelIgnoresPadding(pre: string, text: string, post: string)
    requires AllSpace(pre) && AllSpace(post)
    ensures NormalizeAcademicLevel(Some(pre + text + post)) == NormalizeAcademicLevel(Some(text))
  {
    var padded := pre + text + post;
    var low := Lower(padded);
    assert low == Lower(pre) + Lower(text) + Lower(post);
    LowerAllSpace(pre);
    LowerAllSpace(post);
    assert low[..|pre|] == Lower(pre);
    assert low[|pre|..|pre| + |text|] == Lower(text);
    assert low[|pre| + |text|..] == Lower(post);
    TrimmedSameLevelWords(low, |pre|, |pre| + |text|);
    AcademicLevelByWords(padded);
    AcademicLevelByWords(text);
  }

  /**
   * A cell starting with "Licenciatura", capital letter and all, is a
   * licenciatura whatever follows, as in "Licenciatura en Ciencia de Datos".
   */
  lemma AcademicLevelLicenciaturaExample(tail: string)
    ensures NormalizeAcademicLevel(Some("Licenciatura" + tail)) == Some("licenciatura")
  {
    var head := "Licenciatura";
    var low := Lower(head + tail);
    LowerSlice(head + tail, 0, |head|);
    assert (head + tail)[0..|head|] == head;
    assert Lower(head) == "licenciatura";
    assert OccursAt(low, "licenciatura", 0);
  }

  /** A master's degree is a posgrado. */
  lemma AcademicLevelMaestriaExample()
    ensures NormalizeAcademicLevel(Some("Maestr\U{ED}a")) == Some("posgrado")
  {
    var m := Lower("Maestr\U{ED}a");
    assert m == "maestr\U{ED}a";
    assert m[0..6] == "maestr";
    assert OccursAt(m, "maestr", 0);
    AcademicLevelByWords("Maestr\U{ED}a");
  }

  /** No word occurs in the empty text. */
  lemma NoWordInEmpty(w: string)
    requires w != []
    ensures !Contains([], w)
  {
  }

  /** A cell that is empty or holds only whitespace has no academic level. */
  lemma AcademicLevelBlank(text: string)
    requires AllSpace(text)
    ensures NormalizeAcademicLevel(Some(text)) == None
  {
    LowerAllSpace(text);
    assert Strip(Lower(text)) == [];
    LevelWords();
    NoWordInEmpty("licenciatura");
    NoWordInEmpty("posgrado");
    NoWordInEmpty("maestr");
    NoWordInEmpty("doctor");
    NoWordInEmpty("curso");
    NoWordInEmpty("actualizaci\U{F3}n");
  }
}
