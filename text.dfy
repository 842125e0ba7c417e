/**
 * Identifier normalisation shared by the admin and delivery pages:
 * `value.toString().normalize('NFD').replace(/[̀-ͯ]/g, '').trim().toLowerCase()`,
 * with '' for a falsy value.
 */
module Text {

  /** Combining diacritical marks, U+0300 to U+036F (the range the source strips). */
  predicate IsMark(c: char) {
    '\U{0300}' <= c <= '\U{036F}'
  }

  /** The characters `String.prototype.trim` removes: WhiteSpace and LineTerminator. */
  predicate IsSpace(c: char) {
    || c == '\t' || c == '\n' || c == '\U{000B}' || c == '\U{000C}' || c == '\r'
    || c == ' ' || c == '\U{00A0}' || c == '\U{1680}'
    || ('\U{2000}' <= c <= '\U{200A}')
    || c == '\U{2028}' || c == '\U{2029}' || c == '\U{202F}' || c == '\U{205F}'
    || c == '\U{3000}' || c == '\U{FEFF}'
  }

  /** Upper-case letters whose lower-case form is one code point higher by 0x20. */
  predicate IsUpper(c: char) {
    ('A' <= c <= 'Z') || ('\U{00C0}' <= c <= '\U{00DE}' && c != '\U{00D7}')
  }

  function LowerChar(c: char): (r: char)
    ensures IsUpper(c) ==> r as int == c as int + 32
    ensures !IsUpper(c) ==> r == c
    ensures !IsUpper(r)
  {
    if IsUpper(c) then (c as int + 32) as char else c
  }

  /**
   * Canonical decomposition (NFD) of the precomposed letters of Latin-1, U+00C0 to
   * U+00FF: the base letter, then one combining mark. Any other character is left
   * as it is.
   */
  function DecomposeChar(c: char): (r: seq<char>)
    ensures IsPrecomposed(c) ==> |r| == 2 && 'A' <= r[0] <= 'z' && IsMark(r[1])
    ensures !IsPrecomposed(c) ==> r == [c]
  {
    match c
    case '\U{00C0}' => ['A', '\U{0300}']
    case '\U{00C1}' => ['A', '\U{0301}']
    case '\U{00C2}' => ['A', '\U{0302}']
    case '\U{00C3}' => ['A', '\U{0303}']
    case '\U{00C4}' => ['A', '\U{0308}']
    case '\U{00C5}' => ['A', '\U{030A}']
    case '\U{00C7}' => ['C', '\U{0327}']
    case '\U{00C8}' => ['E', '\U{0300}']
    case '\U{00C9}' => ['E', '\U{0301}']
    case '\U{00CA}' => ['E', '\U{0302}']
    case '\U{00CB}' => ['E', '\U{0308}']
    case '\U{00CC}' => ['I', '\U{0300}']
    case '\U{00CD}' => ['I', '\U{0301}']
    case '\U{00CE}' => ['I', '\U{0302}']
    case '\U{00CF}' => ['I', '\U{0308}']
    case '\U{00D1}' => ['N', '\U{0303}']
    case '\U{00D2}' => ['O', '\U{0300}']
    case '\U{00D3}' => ['O', '\U{0301}']
    case '\U{00D4}' => ['O', '\U{0302}']
    case '\U{00D5}' => ['O', '\U{0303}']
    case '\U{00D6}' => ['O', '\U{0308}']
    case '\U{00D9}' => ['U', '\U{0300}']
    case '\U{00DA}' => ['U', '\U{0301}']
    case '\U{00DB}' => ['U', '\U{0302}']
    case '\U{00DC}' => ['U', '\U{0308}']
    case '\U{00DD}' => ['Y', '\U{0301}']
    case '\U{00E0}' => ['a', '\U{0300}']
    case '\U{00E1}' => ['a', '\U{0301}']
    case '\U{00E2}' => ['a', '\U{0302}']
    case '\U{00E3}' => ['a', '\U{0303}']
    case '\U{00E4}' => ['a', '\U{0308}']
    case '\U{00E5}' => ['a', '\U{030A}']
    case '\U{00E7}' => ['c', '\U{0327}']
    case '\U{00E8}' => ['e', '\U{0300}']
    case '\U{00E9}' => ['e', '\U{0301}']
    case '\U{00EA}' => ['e', '\U{0302}']
    case '\U{00EB}' => ['e', '\U{0308}']
    case '\U{00EC}' => ['i', '\U{0300}']
    case '\U{00ED}' => ['i', '\U{0301}']
    case '\U{00EE}' => ['i', '\U{0302}']
    case '\U{00EF}' => ['i', '\U{0308}']
    case '\U{00F1}' => ['n', '\U{0303}']
    case '\U{00F2}' => ['o', '\U{0300}']
    case '\U{00F3}' => ['o', '\U{0301}']
    case '\U{00F4}' => ['o', '\U{0302}']
    case '\U{00F5}' => ['o', '\U{0303}']
    case '\U{00F6}' => ['o', '\U{0308}']
    case '\U{00F9}' => ['u', '\U{0300}']
    case '\U{00FA}' => ['u', '\U{0301}']
    case '\U{00FB}' => ['u', '\U{0302}']
    case '\U{00FC}' => ['u', '\U{0308}']
    case '\U{00FD}' => ['y', '\U{0301}']
    case '\U{00FF}' => ['y', '\U{0308}']
    case _ => [c]
  }

  /** The letters of U+00C0 to U+00FF with a canonical decomposition: all but Æ Ð × Ø Þ ß æ ð ÷ ø þ. */
  predicate IsPrecomposed(c: char) {
    && '\U{00C0}' <= c <= '\U{00FF}'
    && c != '\U{00C6}' && c != '\U{00D0}' && c != '\U{00D7}' && c != '\U{00D8}' && c != '\U{00DE}' && c != '\U{00DF}'
    && c != '\U{00E6}' && c != '\U{00F0}' && c != '\U{00F7}' && c != '\U{00F8}' && c != '\U{00FE}'
  }

  function Decompose(s: seq<char>): seq<char> {
    if s == [] then [] else DecomposeChar(s[0]) + Decompose(s[1..])
  }

  function StripMarks(s: seq<char>): seq<char> {
    if s == [] then []
    else if IsMark(s[0]) then StripMarks(s[1..])
    else [s[0]] + StripMarks(s[1..])
  }

  function TrimStart(s: seq<char>): seq<char> {
    if s != [] && IsSpace(s[0]) then TrimStart(s[1..]) else s
  }

  function TrimEnd(s: seq<char>): seq<char> {
    if s != [] && IsSpace(s[|s| - 1]) then TrimEnd(s[..|s| - 1]) else s
  }

  /** `String.prototype.trim`. */
  function Trim(s: seq<char>): seq<char> {
    TrimEnd(TrimStart(s))
  }

  function Lower(s: seq<char>): seq<char> {
    if s == [] then [] else [LowerChar(s[0])] + Lower(s[1..])
  }

  /** `normalizeAdminIdentifier` (admin.js) and `normalizeIdentifier` (repartidor.js). */
  function Normalize(s: seq<char>): seq<char> {
    if s == [] then [] else Lower(Trim(StripMarks(Decompose(s))))
  }

  /** The shape every normalised identifier has. */
  ghost predicate IsNormalized(s: seq<char>) {
    && (forall i :: 0 <= i < |s| ==> !IsMark(s[i]) && !IsUpper(s[i]) && !IsPrecomposed(s[i]))
    && (s != [] ==> !IsSpace(s[0]) && !IsSpace(s[|s| - 1]))
  }

  // ---------------------------------------------------------------- stage lemmas

  lemma {:induction false} StripMarksShape(s: seq<char>)
    ensures forall i :: 0 <= i < |StripMarks(s)| ==> !IsMark(StripMarks(s)[i])
    ensures forall c :: c in StripMarks(s) ==> c in s
  {
    if s != [] {
      StripMarksShape(s[1..]);
    }
  }

  lemma {:induction false} StripMarksIdentity(s: seq<char>)
    requires forall i :: 0 <= i < |s| ==> !IsMark(s[i])
    ensures StripMarks(s) == s
  {
    if s != [] {
      StripMarksIdentity(s[1..]);
    }
  }

  lemma {:induction false} DecomposeShape(s: seq<char>)
    ensures forall c :: c in Decompose(s) ==> !IsPrecomposed(c)
  {
    if s != [] {
      DecomposeShape(s[1..]);
      DecomposeCharShape(s[0]);
      assert Decompose(s) == DecomposeChar(s[0]) + Decompose(s[1..]);
    }
  }

  /** A decomposition holds no precomposed letter. */
  lemma DecomposeCharShape(c: char)
    ensures forall x :: x in DecomposeChar(c) ==> !IsPrecomposed(x)
  {
    var r := DecomposeChar(c);
    if IsPrecomposed(c) {
      assert r == [r[0], r[1]];
    }
  }

  lemma {:induction false} DecomposeIdentity(s: seq<char>)
    requires forall i :: 0 <= i < |s| ==> !IsPrecomposed(s[i])
    ensures Decompose(s) == s
  {
    if s != [] {
      DecomposeIdentity(s[1..]);
    }
  }

  lemma {:induction false} TrimStartShape(s: seq<char>)
    ensures |TrimStart(s)| <= |s| && TrimStart(s) == s[|s| - |TrimStart(s)|..]
    ensures TrimStart(s) != [] ==> !IsSpace(TrimStart(s)[0])
  {
    if s != [] && IsSpace(s[0]) {
      TrimStartShape(s[1..]);
    }
  }

  lemma {:induction false} TrimEndShape(s: seq<char>)
    ensures |TrimEnd(s)| <= |s| && TrimEnd(s) == s[..|TrimEnd(s)|]
    ensures TrimEnd(s) != [] ==> !IsSpace(TrimEnd(s)[|TrimEnd(s)| - 1])
  {
    if s != [] && IsSpace(s[|s| - 1]) {
      TrimEndShape(s[..|s| - 1]);
    }
  }

  /** Trimming removes whitespace only at the ends: what is left is a slice of the input. */
  lemma TrimShape(s: seq<char>) returns (a: nat, b: nat)
    ensures a <= b <= |s| && Trim(s) == s[a..b]
    ensures Trim(s) != [] ==> !IsSpace(Trim(s)[0]) && !IsSpace(Trim(s)[|Trim(s)| - 1])
  {
    var t := TrimStart(s);
    TrimStartShape(s);
    TrimEndShape(t);
    a := |s| - |t|;
    b := a + |TrimEnd(t)|;
    assert t == s[a..];
  }

  lemma {:induction false} TrimIdentity(s: seq<char>)
    requires s != [] ==> !IsSpace(s[0]) && !IsSpace(s[|s| - 1])
    ensures Trim(s) == s
  {
  }

  /** Trimming twice is trimming once. */
  lemma TrimIdempotent(s: seq<char>)
    ensures Trim(Trim(s)) == Trim(s)
  {
    var a, b := TrimShape(s);
    TrimIdentity(Trim(s));
  }

  lemma {:induction false} LowerShape(s: seq<char>)
    ensures |Lower(s)| == |s|
    ensures forall i :: 0 <= i < |s| ==> Lower(s)[i] == LowerChar(s[i])
  {
    if s != [] {
      LowerShape(s[1..]);
    }
  }

  // ---------------------------------------------------------------- normalisation

  /** A normalised identifier has no marks, no upper case, no precomposed letter and no surrounding blanks. */
  lemma NormalizeShape(s: seq<char>)
    ensures IsNormalized(Normalize(s))
  {
    if s != [] {
      var d := Decompose(s);
      var m := StripMarks(d);
      var t := Trim(m);
      DecomposeShape(s);
      StripMarksShape(d);
      var a, b := TrimShape(m);
      LowerShape(t);
      forall i | 0 <= i < |t|
        ensures !IsMark(t[i]) && !IsPrecomposed(t[i])
      {
        assert t[i] == m[a + i];
        assert m[a + i] in m;
      }
      var r := Lower(t);
      forall i | 0 <= i < |r|
        ensures !IsMark(r[i]) && !IsUpper(r[i]) && !IsPrecomposed(r[i])
      {
        LowerCharKeeps(t[i]);
      }
      if r != [] {
        LowerCharKeeps(t[0]);
        LowerCharKeeps(t[|t| - 1]);
      }
    }
  }

  /** Lower-casing a character that is neither a mark nor precomposed keeps it so, and keeps blanks blank. */
  lemma LowerCharKeeps(c: char)
    ensures !IsMark(c) ==> !IsMark(LowerChar(c))
    ensures !IsPrecomposed(c) ==> !IsPrecomposed(LowerChar(c))
    ensures IsSpace(LowerChar(c)) <==> IsSpace(c)
  {
    if IsUpper(c) {
      var r := LowerChar(c);
      assert r as int == c as int + 32;
      if !IsPrecomposed(c) {
        }
    }
  }

  /** Normalising is idempotent: a normalised identifier is its own normal form. */
  lemma NormalizeIdempotent(s: seq<char>)
    ensures Normalize(Normalize(s)) == Normalize(s)
  {
    var r := Normalize(s);
    NormalizeShape(s);
    if r != [] {
      DecomposeIdentity(r);
      StripMarksIdentity(r);
      TrimIdentity(r);
      LowerShape(r);
      assert Lower(r) == r;
      assert Normalize(r) == Lower(Trim(StripMarks(Decompose(r))));
    }
  }

  /** An identifier without accents, marks or surrounding blanks normalises to its lower-case form. */
  lemma NormalizePlain(s: seq<char>)
    requires forall i :: 0 <= i < |s| ==> !IsMark(s[i]) && !IsPrecomposed(s[i])
    requires s != [] ==> !IsSpace(s[0]) && !IsSpace(s[|s| - 1])
    ensures Normalize(s) == Lower(s)
  {
    if s != [] {
      DecomposeIdentity(s);
      StripMarksIdentity(s);
      TrimIdentity(s);
    }
  }

  /** `"".trim() === ""` and an all-blank string trims to empty. */
  lemma TrimEmptyIff(s: seq<char>)
    ensures Trim(s) == [] <==> forall i :: 0 <= i < |s| ==> IsSpace(s[i])
  {
    TrimStartEmptyIff(s);
    TrimEndShape(TrimStart(s));
    TrimStartShape(s);
    var t := TrimStart(s);
    if t != [] {
      assert !IsSpace(t[0]);
      assert Trim(s) != [] by {
        if TrimEnd(t) == [] {
          TrimEndEmpty(t);
        }
      }
    }
  }

  lemma {:induction false} TrimStartEmptyIff(s: seq<char>)
    ensures TrimStart(s) == [] <==> forall i :: 0 <= i < |s| ==> IsSpace(s[i])
  {
    if s != [] && IsSpace(s[0]) {
      TrimStartEmptyIff(s[1..]);
      assert forall i :: 1 <= i < |s| ==> s[i] == s[1..][i - 1];
    }
  }

  lemma {:induction false} TrimEndEmpty(s: seq<char>)
    requires TrimEnd(s) == []
    ensures forall i :: 0 <= i < |s| ==> IsSpace(s[i])
  {
    if s != [] {
      TrimEndEmpty(s[..|s| - 1]);
    }
  }
}
