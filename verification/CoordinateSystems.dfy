/** The test that refuses geographic coordinate systems, and the trimming and upper-casing areas are
    stored with. Upper-casing covers the letters that end up in ASCII. */
module CoordinateSystems {

  function UpperChar(c: char): char {
    if 'a' <= c <= 'z' then (c as int - 32) as char
    else if c == '\U{17F}' then 'S'
    else if c == '\U{131}' then 'I'
    else c
  }

  /** What `strings.ToUpper` does to letters whose upper case is ASCII. */
  function Upper(s: string): (u: string)
    ensures |u| == |s| && forall i :: 0 <= i < |s| ==> u[i] == UpperChar(s[i])
  {
    seq(|s|, i requires 0 <= i < |s| => UpperChar(s[i]))
  }

  predicate IsSpace(c: char) {
    '\U{9}' <= c <= '\U{D}' || c == ' ' || c == '\U{85}' || c == '\U{A0}' || c == '\U{1680}' ||
    '\U{2000}' <= c <= '\U{200A}' || c == '\U{2028}' || c == '\U{2029}' || c == '\U{202F}' || c == '\U{205F}' ||
    c == '\U{3000}'
  }

  function TrimLeft(s: string): (t: string)
    ensures t == [] || !IsSpace(t[0])
  {
    if s != [] && IsSpace(s[0]) then TrimLeft(s[1..]) else s
  }

  function TrimRight(s: string): (t: string)
    ensures t <= s && (t == [] || !IsSpace(t[|t| - 1]))
  {
    if s != [] && IsSpace(s[|s| - 1]) then TrimRight(s[..|s| - 1]) else s
  }

  function TrimSpace(s: string): (t: string)
    ensures Trimmed(t)
  {
    TrimRight(TrimLeft(s))
  }

  predicate Trimmed(s: string) {
    s == [] || (!IsSpace(s[0]) && !IsSpace(s[|s| - 1]))
  }

  /** How codes and coordinate systems are stored. */
  function Normalized(s: string): string {
    Upper(TrimSpace(s))
  }

  predicate Contains(s: string, part: string) {
    exists i :: 0 <= i <= |s| && part <= s[i..]
  }

  predicate Geographic(normalized: string) {
    Contains(normalized, "4326") || Contains(normalized, "WGS84") || Contains(normalized, "WGS 84")
  }

  /** Accepted as a projected coordinate system. */
  predicate Projected(crs: string) {
    Normalized(crs) != "" && !Geographic(Normalized(crs))
  }

  /** A projected system in its stored form. */
  predicate StoredSystem(crs: string) {
    Normalized(crs) == crs && Projected(crs)
  }

  lemma TrimmedStays(s: string)
    requires Trimmed(s)
    ensures TrimSpace(s) == s
  {
  }

  lemma UpperKeepsSpace(c: char)
    ensures IsSpace(UpperChar(c)) == IsSpace(c)
    ensures UpperChar(UpperChar(c)) == UpperChar(c)
  {
  }

  /** What is stored normalised stays as it is when normalised again. */
  lemma NormalizedTwice(s: string)
    ensures Normalized(Normalized(s)) == Normalized(s)
  {
    hide IsSpace, UpperChar, TrimSpace;
    var t := TrimSpace(s);
    var u := Upper(t);
    if t != [] {
      UpperKeepsSpace(t[0]);
      UpperKeepsSpace(t[|t| - 1]);
    }
    TrimmedStays(u);
    forall i | 0 <= i < |u| ensures Upper(u)[i] == u[i] {
      UpperKeepsSpace(t[i]);
    }
  }

  /** So the test comes out the same on the stored form as on the form received, however often. */
  lemma ProjectedAsStored(crs: string)
    ensures Projected(Normalized(crs)) == Projected(crs)
  {
    NormalizedTwice(crs);
  }

  /** The slice from `i` to `j` spells a geographic system, in whatever case. */
  predicate Spells(crs: string, i: int, j: int)
    requires 0 <= i <= j <= |crs|
  {
    Upper(crs[i..j]) == "4326" || Upper(crs[i..j]) == "WGS84" || Upper(crs[i..j]) == "WGS 84"
  }

  predicate SpellsSomewhere(crs: string) {
    exists i, j :: 0 <= i <= j <= |crs| && Spells(crs, i, j)
  }

  lemma LeftCut(s: string) returns (k: nat)
    ensures k <= |s| && TrimLeft(s) == s[k..]
    ensures forall i :: 0 <= i < k ==> IsSpace(s[i])
  {
    hide IsSpace;
    if s != [] && IsSpace(s[0]) {
      var rest := LeftCut(s[1..]);
      k := rest + 1;
    } else {
      k := 0;
    }
  }

  lemma RightCut(s: string)
    ensures forall i :: |TrimRight(s)| <= i < |s| ==> IsSpace(s[i])
  {
    hide IsSpace;
  }

  /** Trimming cuts blanks off both ends and nothing else. */
  lemma TrimKeeps(s: string) returns (k: nat)
    ensures k + |TrimSpace(s)| <= |s| && TrimSpace(s) == s[k..k + |TrimSpace(s)|]
    ensures forall i :: 0 <= i < k || k + |TrimSpace(s)| <= i < |s| ==> IsSpace(s[i])
  {
    hide IsSpace;
    k := LeftCut(s);
    RightCut(TrimLeft(s));
  }

  lemma SpellingHasNoBlankEnds(crs: string, i: nat, j: nat)
    requires i <= j <= |crs| && Spells(crs, i, j)
    ensures i < j && !IsSpace(crs[i]) && !IsSpace(crs[j - 1])
  {
    hide IsSpace, UpperChar;
    var u := Upper(crs[i..j]);
    assert u[0] in {'4', 'W'} && u[|u| - 1] in {'6', '4'};
    UpperKeepsSpace(crs[i]);
    UpperKeepsSpace(crs[j - 1]);
    NoBlanks();
  }

  lemma NoBlanks()
    ensures !IsSpace('4') && !IsSpace('W') && !IsSpace('6')
  {
  }

  lemma UpperSlice(t: string, a: nat, b: nat)
    requires a <= b <= |t|
    ensures Upper(t)[a..b] == Upper(t[a..b])
  {
    hide UpperChar;
  }

  lemma ContainsIsSlice(t: string, part: string)
    ensures Contains(Upper(t), part) <==> exists a, b :: 0 <= a <= b <= |t| && Upper(t[a..b]) == part
  {
    hide UpperChar;
    var u := Upper(t);
    if Contains(u, part) {
      var a :| 0 <= a <= |u| && part <= u[a..];
      assert u[a..a + |part|] == part;
      UpperSlice(t, a, a + |part|);
    }
    forall a, b | 0 <= a <= b <= |t| && Upper(t[a..b]) == part ensures Contains(u, part) {
      UpperSlice(t, a, b);
      assert part <= u[a..];
    }
  }

  lemma SliceOfSlice(s: string, k: nat, n: nat, a: nat, b: nat)
    requires k + n <= |s| && a <= b <= n
    ensures s[k..k + n][a..b] == s[k + a..k + b]
  {
    var whole := s[k..k + n];
    forall i | 0 <= i < b - a ensures whole[a..b][i] == s[k + a..k + b][i] {
      assert whole[a + i] == s[k + (a + i)];
    }
  }

  lemma SpelledAlike(s: string, a: nat, b: nat, t: string, i: nat, j: nat)
    requires a <= b <= |s| && i <= j <= |t| && s[a..b] == t[i..j]
    ensures Spells(s, a, b) <==> Spells(t, i, j)
  {
  }

  lemma GeographicIsSpelled(t: string)
    ensures Geographic(Upper(t)) <==> SpellsSomewhere(t)
  {
    hide UpperChar, Contains;
    ContainsIsSlice(t, "4326");
    ContainsIsSlice(t, "WGS84");
    ContainsIsSlice(t, "WGS 84");
    if Contains(Upper(t), "4326") {
      var a, b :| 0 <= a <= b <= |t| && Upper(t[a..b]) == "4326";
      assert Spells(t, a, b);
    } else if Contains(Upper(t), "WGS84") {
      var a, b :| 0 <= a <= b <= |t| && Upper(t[a..b]) == "WGS84";
      assert Spells(t, a, b);
    } else if Contains(Upper(t), "WGS 84") {
      var a, b :| 0 <= a <= b <= |t| && Upper(t[a..b]) == "WGS 84";
      assert Spells(t, a, b);
    }
  }

  /** Accepted exactly when something is left after trimming and no slice of the text as received, in
      whatever case and between whatever blanks, spells a geographic system. */
  lemma ProjectedExactly(crs: string)
    ensures Projected(crs) <==> TrimSpace(crs) != "" && !SpellsSomewhere(crs)
  {
    hide IsSpace, UpperChar, Geographic, TrimSpace, Upper, Spells;
    var t := TrimSpace(crs);
    var k := TrimKeeps(crs);
    GeographicIsSpelled(t);
    forall a, b | 0 <= a <= b <= |t| && Spells(t, a, b) ensures Spells(crs, k + a, k + b) {
      SliceOfSlice(crs, k, |t|, a, b);
      SpelledAlike(t, a, b, crs, k + a, k + b);
    }
    forall i, j | 0 <= i <= j <= |crs| && Spells(crs, i, j) ensures SpellsSomewhere(t) {
      SpellingHasNoBlankEnds(crs, i, j);
      SliceOfSlice(crs, k, |t|, i - k, j - k);
      SpelledAlike(t, i - k, j - k, crs, i, j);
      assert Spells(t, i - k, j - k);
    }
  }

  // ---- Letters and blanks ----

  const LOWER := "abcdefghijklmnopqrstuvwxyz"
  const CAPITALS := "ABCDEFGHIJKLMNOPQRSTUVWXYZ"

  /** The twenty-six letters go to their capitals; so do the long s and the dotless i; all else stays. */
  lemma UpperLetters(c: char, k: nat)
    ensures k < 26 ==> UpperChar(LOWER[k]) == CAPITALS[k]
    ensures UpperChar('\U{17F}') == 'S' && UpperChar('\U{131}') == 'I'
    ensures c !in LOWER && c != '\U{17F}' && c != '\U{131}' ==> UpperChar(c) == c
  {
    if k < 26 {
      assert LOWER[k] as int == 97 + k && CAPITALS[k] as int == 65 + k;
    }
    if 'a' <= c <= 'z' {
      assert LOWER[c as int - 97] == c;
    }
  }

  /** The blanks are these code points. */
  lemma BlanksExactly(c: char)
    ensures IsSpace(c) <==> c as int in {9, 10, 11, 12, 13, 32, 133, 160, 5760, 8192, 8193, 8194, 8195, 8196, 8197,
                                         8198, 8199, 8200, 8201, 8202, 8232, 8233, 8239, 8287, 12288}
  {
  }

  /** A geographic system written out: four digits, or the three letters in either case, with or without a
      blank, and two digits. */
  predicate Written(s: string) {
    s == "4326" ||
    (|s| == 5 && s[0] in "Ww" && s[1] in "Gg" && s[2] in "Ss\U{17F}" && s[3] == '8' && s[4] == '4') ||
    (|s| == 6 && s[0] in "Ww" && s[1] in "Gg" && s[2] in "Ss\U{17F}" && s[3] == ' ' && s[4] == '8' && s[5] == '4')
  }

  lemma LettersOf(c: char)
    ensures UpperChar(c) == 'W' <==> c in "Ww"
    ensures UpperChar(c) == 'G' <==> c in "Gg"
    ensures UpperChar(c) == 'S' <==> c in "Ss\U{17F}"
    ensures UpperChar(c) in " 234689" || c in " 234689" ==> UpperChar(c) == c
  {
  }

  lemma WrittenIsSpelled(s: string)
    ensures Spells(s, 0, |s|) <==> Written(s)
  {
    hide UpperChar;
    assert s[0..|s|] == s;
    forall i | 0 <= i < |s|
      ensures UpperChar(s[i]) == 'W' <==> s[i] in "Ww"
      ensures UpperChar(s[i]) == 'G' <==> s[i] in "Gg"
      ensures UpperChar(s[i]) == 'S' <==> s[i] in "Ss\U{17F}"
      ensures UpperChar(s[i]) in " 234689" || s[i] in " 234689" ==> UpperChar(s[i]) == s[i]
    {
      LettersOf(s[i]);
    }
    var u := Upper(s);
    if |s| == 4 {
      assert u == "4326" <==> u[0] == '4' && u[1] == '3' && u[2] == '2' && u[3] == '6';
      assert s == "4326" <==> s[0] == '4' && s[1] == '3' && s[2] == '2' && s[3] == '6';
    } else if |s| == 5 {
      assert u == "WGS84" <==> u[0] == 'W' && u[1] == 'G' && u[2] == 'S' && u[3] == '8' && u[4] == '4';
    } else if |s| == 6 {
      assert u == "WGS 84" <==> u[0] == 'W' && u[1] == 'G' && u[2] == 'S' && u[3] == ' ' && u[4] == '8' && u[5] == '4';
    }
  }

  predicate WrittenSomewhere(crs: string) {
    exists i, j :: 0 <= i <= j <= |crs| && WrittenAt(crs, i, j)
  }

  predicate WrittenAt(crs: string, i: int, j: int)
    requires 0 <= i <= j <= |crs|
  {
    Written(crs[i..j])
  }

  /** Refused exactly when nothing but blanks is there or a geographic system is written somewhere in it. */
  lemma RefusedByLetters(crs: string)
    ensures Projected(crs) <==> (exists i :: 0 <= i < |crs| && !IsSpace(crs[i])) && !WrittenSomewhere(crs)
  {
    hide IsSpace, UpperChar, Projected, Written;
    ProjectedExactly(crs);
    forall i, j | 0 <= i <= j <= |crs| ensures Spells(crs, i, j) <==> WrittenAt(crs, i, j) {
      WrittenIsSpelled(crs[i..j]);
      assert crs[i..j][0..|crs[i..j]|] == crs[i..j];
    }
    var k := TrimKeeps(crs);
    if TrimSpace(crs) != "" {
      assert !IsSpace(TrimSpace(crs)[0]) && TrimSpace(crs)[0] == crs[k];
    }
  }
}
