/** Name normalisation and query-term extraction of the search box
    (`normalizeText` and `getSearchTerms` in src/components/SearchSection.tsx).

    `normalizeText` trims the text, replaces every run of whitespace by one space,
    folds the Arabic letter variants (alef with hamza or madda to plain alef, alef
    maksura to ya, ta marbuta to ha, waw and ya with hamza to hamza) and lower-cases
    the result. `getSearchTerms` splits the normalised text on single spaces and
    drops the empty pieces. */
module TextNormalizer {
  import opened Seqs

  // ---------------------------------------------------------------------------
  // Characters

  /** The code points matched by the regular-expression class `\s` and removed by
      `String.prototype.trim`: ECMAScript's WhiteSpace and LineTerminator sets. */
  predicate IsSpace(c: char) {
    c == ' ' || ('\U{0009}' <= c <= '\U{000D}') || c == '\U{00A0}' || c == '\U{1680}'
    || ('\U{2000}' <= c <= '\U{200A}') || c == '\U{2028}' || c == '\U{2029}'
    || c == '\U{202F}' || c == '\U{205F}' || c == '\U{3000}' || c == '\U{FEFF}'
  }

  const Alef: char := '\U{0627}'
  const AlefHamzaAbove: char := '\U{0623}'
  const AlefHamzaBelow: char := '\U{0625}'
  const AlefMadda: char := '\U{0622}'
  const AlefMaksura: char := '\U{0649}'
  const Ya: char := '\U{064A}'
  const TaMarbuta: char := '\U{0629}'
  const Ha: char := '\U{0647}'
  const WawHamza: char := '\U{0624}'
  const YaHamza: char := '\U{0626}'
  const Hamza: char := '\U{0621}'

  /** The letters that normalisation rewrites to another letter. */
  const Variants: set<char> :=
    {AlefHamzaAbove, AlefHamzaBelow, AlefMadda, AlefMaksura, TaMarbuta, WawHamza, YaHamza}

  predicate IsUpperAscii(c: char) { 'A' <= c <= 'Z' }

  /** `toLowerCase`, restricted to the Latin capitals. */
  function LowerAscii(c: char): (r: char)
    ensures !IsUpperAscii(r)
    ensures IsUpperAscii(c) ==> r as int == c as int + 32
    ensures !IsUpperAscii(c) ==> r == c
  {
    if IsUpperAscii(c) then (c as int + 32) as char else c
  }

  /** A character normalisation leaves alone: no letter variant, no Latin capital. */
  predicate IsFolded(c: char) { c !in Variants && !IsUpperAscii(c) }

  /** What the four letter replacements and the lower-casing do to one character. */
  function FoldChar(c: char): (r: char)
    ensures IsFolded(r)
    ensures IsFolded(c) ==> r == c
  {
    if c in {AlefHamzaAbove, AlefHamzaBelow, AlefMadda} then Alef
    else if c in {AlefMaksura, Ya} then Ya
    else if c == TaMarbuta then Ha
    else if c in {WawHamza, YaHamza} then Hamza
    else LowerAscii(c)
  }

  /** Folding neither creates nor removes whitespace. */
  lemma FoldCharSpace(c: char)
    ensures IsSpace(FoldChar(c)) <==> IsSpace(c)
  {
  }

  /** Folding turns a plain space into a plain space. */
  lemma FoldCharPlain(c: char)
    requires IsSpace(c) ==> c == ' '
    ensures IsSpace(FoldChar(c)) ==> FoldChar(c) == ' '
  {
    FoldCharSpace(c);
  }

  // ---------------------------------------------------------------------------
  // The steps of the pipeline

  /** `trimStart`: drop the leading whitespace, and only that (`TrimStartShape`). */
  function TrimStart(s: string): (r: string)
    ensures |r| <= |s|
  {
    if s != [] && IsSpace(s[0]) then TrimStart(s[1..]) else s
  }

  /** What `trimStart` leaves is a suffix of the text that does not start with
      whitespace, and everything it drops is whitespace. */
  lemma {:induction false} TrimStartShape(s: string)
    ensures TrimStart(s) == s[|s| - |TrimStart(s)|..]
    ensures forall i :: 0 <= i < |s| - |TrimStart(s)| ==> IsSpace(s[i])
    ensures TrimStart(s) != [] ==> !IsSpace(TrimStart(s)[0])
  {
    if s != [] && IsSpace(s[0]) {
      TrimStartShape(s[1..]);
      assert s[1..][|s| - 1 - |TrimStart(s)|..] == s[|s| - |TrimStart(s)|..];
    }
  }

  /** `trimEnd`: drop the trailing whitespace, and only that (`TrimEndShape`). */
  function TrimEnd(s: string): (r: string)
    ensures |r| <= |s|
  {
    if s != [] && IsSpace(s[|s| - 1]) then TrimEnd(s[..|s| - 1]) else s
  }

  /** What `trimEnd` leaves is a prefix of the text that does not end with
      whitespace, and everything it drops is whitespace. */
  lemma {:induction false} TrimEndShape(s: string)
    ensures TrimEnd(s) == s[..|TrimEnd(s)|]
    ensures forall i :: |TrimEnd(s)| <= i < |s| ==> IsSpace(s[i])
    ensures TrimEnd(s) != [] ==> !IsSpace(TrimEnd(s)[|TrimEnd(s)| - 1])
  {
    if s != [] && IsSpace(s[|s| - 1]) {
      TrimEndShape(s[..|s| - 1]);
    }
  }

  /** `String.prototype.trim`. */
  function Trim(s: string): string {
    TrimEnd(TrimStart(s))
  }

  /** A trimmed text neither starts nor ends with whitespace, and it is empty
      exactly when the text is all whitespace. */
  lemma TrimShape(s: string)
    ensures Trim(s) != [] ==> !IsSpace(Trim(s)[0]) && !IsSpace(Trim(s)[|Trim(s)| - 1])
    ensures Trim(s) == [] <==> forall i :: 0 <= i < |s| ==> IsSpace(s[i])
  {
    var t := TrimStart(s);
    TrimStartShape(s);
    TrimEndShape(t);
    assert forall i :: |s| - |t| <= i < |s| ==> s[i] == t[i - (|s| - |t|)];
  }

  /** Every whitespace character of `s` is a plain space. */
  predicate SpacesArePlain(s: string) {
    forall i :: 0 <= i < |s| ==> IsSpace(s[i]) ==> s[i] == ' '
  }

  /** No two whitespace characters of `s` are adjacent. */
  predicate NoDoubleSpace(s: string) {
    forall i :: 0 <= i < |s| - 1 ==> !(IsSpace(s[i]) && IsSpace(s[i + 1]))
  }

  /** `replace(/\s+/g, ' ')`: each maximal run of whitespace becomes one space.
      Its shape is stated by `CollapseShape`. */
  function CollapseSpaces(s: string): string
    decreases |s|
  {
    if s == [] then []
    else if IsSpace(s[0]) then [' '] + CollapseSpaces(TrimStart(s[1..]))
    else [s[0]] + CollapseSpaces(s[1..])
  }

  /** The collapsed text is no longer than the original, empty exactly when it is,
      starts and ends with whitespace exactly when it does, and holds only plain
      spaces, never two in a row. */
  predicate CollapsedShape(s: string, r: string) {
    |r| <= |s|
    && (r == [] <==> s == [])
    && (r != [] ==> (IsSpace(r[0]) <==> IsSpace(s[0])) && (IsSpace(r[|r| - 1]) <==> IsSpace(s[|s| - 1])))
    && SpacesArePlain(r) && NoDoubleSpace(r)
  }

  lemma {:induction false} CollapseShape(s: string)
    ensures CollapsedShape(s, CollapseSpaces(s))
    decreases |s|
  {
    if s != [] {
      if IsSpace(s[0]) {
        CollapseAtSpace(s);
      } else {
        CollapseAtLetter(s);
      }
    }
  }

  lemma {:induction false} CollapseAtSpace(s: string)
    requires s != [] && IsSpace(s[0])
    ensures CollapsedShape(s, CollapseSpaces(s))
    decreases |s|, 0
  {
    var rest := TrimStart(s[1..]);
    var c := CollapseSpaces(rest);
    CollapseShape(rest);
    TrimStartShape(s[1..]);
    TrimStartEnds(s);
    ConsShape(' ', c);
    var r := [' '] + c;
    assert CollapseSpaces(s) == r;
    if c == [] {
      assert r[|r| - 1] == ' ';
    } else {
      assert r[|r| - 1] == c[|c| - 1];
      assert IsSpace(c[|c| - 1]) <==> IsSpace(s[|s| - 1]);
    }
  }

  lemma {:induction false} CollapseAtLetter(s: string)
    requires s != [] && !IsSpace(s[0])
    ensures CollapsedShape(s, CollapseSpaces(s))
    decreases |s|, 0
  {
    var c := CollapseSpaces(s[1..]);
    CollapseShape(s[1..]);
    ConsShape(s[0], c);
  }

  /** After a leading space, the rest of the text with its leading whitespace
      trimmed ends where the text ends, or is empty when the text is all blank at
      the end. */
  lemma TrimStartEnds(s: string)
    requires s != []
    ensures TrimStart(s[1..]) != [] ==> TrimStart(s[1..])[|TrimStart(s[1..])| - 1] == s[|s| - 1]
    ensures TrimStart(s[1..]) == [] && |s| > 1 ==> IsSpace(s[|s| - 1])
  {
    TrimStartShape(s[1..]);
  }

  /** Putting one character in front of a collapsed text keeps it collapsed, as
      long as a whitespace character in front is a plain space not followed by
      another whitespace character. */
  lemma ConsShape(x: char, c: string)
    requires SpacesArePlain(c) && NoDoubleSpace(c)
    requires IsSpace(x) ==> x == ' ' && (c != [] ==> !IsSpace(c[0]))
    ensures SpacesArePlain([x] + c) && NoDoubleSpace([x] + c)
  {
    var r := [x] + c;
    assert forall i :: 1 <= i < |r| ==> r[i] == c[i - 1];
  }

  /** `replace(/[targets]/g, by)`. */
  function ReplaceChars(s: string, targets: set<char>, replacement: char): (r: string)
    ensures |r| == |s|
    ensures forall i :: 0 <= i < |s| ==> r[i] == if s[i] in targets then replacement else s[i]
  {
    seq(|s|, i requires 0 <= i < |s| => if s[i] in targets then replacement else s[i])
  }

  /** `toLowerCase` on the Latin letters. */
  function ToLowerCase(s: string): (r: string)
    ensures |r| == |s|
    ensures forall i :: 0 <= i < |s| ==> r[i] == LowerAscii(s[i])
  {
    seq(|s|, i requires 0 <= i < |s| => LowerAscii(s[i]))
  }

  /** Every character replaced by its folded form. */
  function FoldLetters(s: string): (r: string)
    ensures |r| == |s|
    ensures forall i :: 0 <= i < |s| ==> r[i] == FoldChar(s[i])
  {
    seq(|s|, i requires 0 <= i < |s| => FoldChar(s[i]))
  }

  /** The four letter replacements followed by the lower-casing, in source order,
      amount to folding every character. */
  lemma ReplacementChainFolds(s: string)
    ensures ToLowerCase(ReplaceChars(ReplaceChars(ReplaceChars(ReplaceChars(s,
              {AlefHamzaAbove, AlefHamzaBelow, AlefMadda}, Alef), {AlefMaksura, Ya}, Ya),
              {TaMarbuta}, Ha), {WawHamza, YaHamza}, Hamza))
            == FoldLetters(s)
  {
  }

  /** The shape of every normalised string: no whitespace at either end, every
      whitespace character is a plain space, no two whitespace characters in a row,
      and no letter variant or Latin capital anywhere. */
  predicate IsNormalized(s: string) {
    (s != [] ==> !IsSpace(s[0]) && !IsSpace(s[|s| - 1]))
    && SpacesArePlain(s) && NoDoubleSpace(s)
    && (forall i :: 0 <= i < |s| ==> IsFolded(s[i]))
  }

  /** `normalizeText`: trim, collapse the whitespace runs, then fold the letters
      (the four replacements and the lower-casing, by `ReplacementChainFolds`). */
  function NormalizeText(text: string): string {
    FoldLetters(CollapseSpaces(Trim(text)))
  }

  /** Every normal form is normalised, and it is empty exactly when the text is
      blank. */
  lemma NormalizeTextShape(text: string)
    ensures IsNormalized(NormalizeText(text))
    ensures NormalizeText(text) == [] <==> Trim(text) == []
  {
    var t := Trim(text);
    TrimShape(text);
    var c := CollapseSpaces(t);
    CollapseShape(t);
    FoldShape(c);
  }

  /** Folding keeps the whitespace where it is and leaves every character folded. */
  lemma FoldShape(c: string)
    requires c != [] ==> !IsSpace(c[0]) && !IsSpace(c[|c| - 1])
    requires SpacesArePlain(c) && NoDoubleSpace(c)
    ensures IsNormalized(FoldLetters(c))
  {
    var f := FoldLetters(c);
    forall i | 0 <= i < |c| ensures (IsSpace(f[i]) <==> IsSpace(c[i])) && (IsSpace(f[i]) ==> f[i] == ' ') {
      FoldCharPlain(c[i]);
    }
  }

  // ---------------------------------------------------------------------------
  // The whitespace steps keep every other character

  /** The characters of a text that are not whitespace, in order. */
  function NonSpaces(s: string): (r: string)
    ensures |r| <= |s|
  {
    if s == [] then [] else (if IsSpace(s[0]) then [] else [s[0]]) + NonSpaces(s[1..])
  }

  lemma NonSpacesCons(c: char, s: string)
    ensures NonSpaces([c] + s) == (if IsSpace(c) then [] else [c]) + NonSpaces(s)
  {
    assert ([c] + s)[0] == c && ([c] + s)[1..] == s;
  }

  /** `trimStart` drops only whitespace. */
  lemma {:induction false} TrimStartKeepsNonSpaces(s: string)
    ensures NonSpaces(TrimStart(s)) == NonSpaces(s)
    decreases |s|
  {
    if s != [] && IsSpace(s[0]) {
      TrimStartKeepsNonSpaces(s[1..]);
    }
  }

  /** Collapsing replaces whitespace by spaces and keeps every other character, in
      order. */
  lemma {:induction false} CollapseKeepsNonSpaces(s: string)
    ensures NonSpaces(CollapseSpaces(s)) == NonSpaces(s)
    decreases |s|
  {
    if s != [] {
      if IsSpace(s[0]) {
        var rest := TrimStart(s[1..]);
        TrimStartKeepsNonSpaces(s[1..]);
        CollapseKeepsNonSpaces(rest);
        NonSpacesCons(' ', CollapseSpaces(rest));
      } else {
        CollapseKeepsNonSpaces(s[1..]);
        NonSpacesCons(s[0], CollapseSpaces(s[1..]));
      }
    }
  }

  // ---------------------------------------------------------------------------
  // The collapse leaves exactly one space between two words

  /** `trimStart` of a whitespace run followed by a word start is that word start. */
  lemma {:induction false} TrimStartRun(w: string, b: string)
    requires forall i :: 0 <= i < |w| ==> IsSpace(w[i])
    requires b == [] || !IsSpace(b[0])
    ensures TrimStart(w + b) == b
    decreases |w|
  {
    if w == [] {
      assert w + b == b;
    } else {
      assert (w + b)[0] == w[0];
      assert (w + b)[1..] == w[1..] + b;
      TrimStartRun(w[1..], b);
    }
  }

  /** `trimStart` of a text that ends with a non-space stops inside it. */
  lemma {:induction false} TrimStartAppend(u: string, t: string)
    requires u != [] && !IsSpace(u[|u| - 1])
    ensures TrimStart(u + t) == TrimStart(u) + t
    ensures TrimStart(u) != [] && TrimStart(u)[|TrimStart(u)| - 1] == u[|u| - 1]
    decreases |u|
  {
    assert (u + t)[0] == u[0];
    if IsSpace(u[0]) {
      assert (u + t)[1..] == u[1..] + t;
      TrimStartAppend(u[1..], t);
    }
  }

  /** A whitespace run in front of a word (or at the end) becomes exactly one
      space: the collapse neither drops the run nor keeps more of it. */
  lemma {:induction false} CollapseRun(w: string, b: string)
    requires w != [] && forall i :: 0 <= i < |w| ==> IsSpace(w[i])
    requires b == [] || !IsSpace(b[0])
    ensures CollapseSpaces(w + b) == [' '] + CollapseSpaces(b)
  {
    assert (w + b)[0] == w[0];
    assert (w + b)[1..] == w[1..] + b;
    TrimStartRun(w[1..], b);
  }

  /** Up to a non-space character, the collapse works on each side separately,
      so the text before a word boundary is collapsed on its own. */
  lemma {:induction false} CollapseAppend(a: string, t: string)
    requires a != [] && !IsSpace(a[|a| - 1])
    ensures CollapseSpaces(a + t) == CollapseSpaces(a) + CollapseSpaces(t)
    decreases |a|
  {
    assert (a + t)[0] == a[0];
    assert (a + t)[1..] == a[1..] + t;
    if IsSpace(a[0]) {
      TrimStartAppend(a[1..], t);
      CollapseAppend(TrimStart(a[1..]), t);
    } else if |a| == 1 {
      assert a[1..] == [] && a[1..] + t == t;
    } else {
      CollapseAppend(a[1..], t);
    }
  }

  // ---------------------------------------------------------------------------
  // Idempotence

  lemma {:induction false} CollapseFixed(s: string)
    requires SpacesArePlain(s) && NoDoubleSpace(s)
    ensures CollapseSpaces(s) == s
    decreases |s|
  {
    if s != [] {
      var t := s[1..];
      assert SpacesArePlain(t) && NoDoubleSpace(t) by {
        assert forall i :: 0 <= i < |t| ==> t[i] == s[i + 1];
      }
      CollapseFixed(t);
      if IsSpace(s[0]) {
        assert t != [] ==> !IsSpace(t[0]) by {
          if t != [] { assert t[0] == s[1]; }
        }
        assert TrimStart(t) == t;
        assert s[0] == ' ';
      }
      assert s == [s[0]] + t;
    }
  }

  /** A normalised string is a fixed point of `NormalizeText`. */
  lemma NormalizedIsFixed(s: string)
    requires IsNormalized(s)
    ensures NormalizeText(s) == s
  {
    assert TrimStart(s) == s;
    assert TrimEnd(s) == s;
    assert Trim(s) == s;
    CollapseFixed(s);
    FoldFixed(s);
  }

  lemma FoldFixed(s: string)
    requires forall i :: 0 <= i < |s| ==> IsFolded(s[i])
    ensures FoldLetters(s) == s
  {
  }

  lemma NormalizeIdempotent(s: string)
    ensures NormalizeText(NormalizeText(s)) == NormalizeText(s)
  {
    NormalizeTextShape(s);
    NormalizedIsFixed(NormalizeText(s));
  }

  // ---------------------------------------------------------------------------
  // Letter folding commutes with the whitespace steps

  lemma {:induction false} TrimStartFold(s: string)
    ensures TrimStart(FoldLetters(s)) == FoldLetters(TrimStart(s))
  {
    if s != [] {
      FoldCharSpace(s[0]);
    }
    if s != [] && IsSpace(s[0]) {
      assert FoldLetters(s)[1..] == FoldLetters(s[1..]);
      TrimStartFold(s[1..]);
    }
  }

  lemma {:induction false} TrimEndFold(s: string)
    ensures TrimEnd(FoldLetters(s)) == FoldLetters(TrimEnd(s))
  {
    if s != [] {
      FoldCharSpace(s[|s| - 1]);
    }
    if s != [] && IsSpace(s[|s| - 1]) {
      assert FoldLetters(s)[..|s| - 1] == FoldLetters(s[..|s| - 1]);
      TrimEndFold(s[..|s| - 1]);
    }
  }

  lemma FoldLettersConcat(a: string, b: string)
    ensures FoldLetters(a + b) == FoldLetters(a) + FoldLetters(b)
  {
  }

  lemma {:induction false} CollapseFold(s: string)
    ensures CollapseSpaces(FoldLetters(s)) == FoldLetters(CollapseSpaces(s))
    decreases |s|, 1
  {
    if s != [] {
      if IsSpace(s[0]) {
        CollapseFoldAtSpace(s);
      } else {
        CollapseFoldAtLetter(s);
      }
    }
  }

  lemma {:induction false} CollapseFoldAtSpace(s: string)
    requires s != [] && IsSpace(s[0])
    ensures CollapseSpaces(FoldLetters(s)) == FoldLetters(CollapseSpaces(s))
    decreases |s|, 0
  {
    var t := s[1..];
    var rest := TrimStart(t);
    var f, ft := FoldLetters(s), FoldLetters(t);
    FoldLettersCons(s);
    FoldCharSpace(s[0]);
    assert f[1..] == ft;
    CollapseUnfoldSpace(f);
    TrimStartFold(t);
    CollapseFold(rest);
    FoldLettersConcat([' '], CollapseSpaces(rest));
    FoldPlainSpace();
    CollapseUnfoldSpace(s);
  }

  lemma FoldPlainSpace()
    ensures FoldLetters([' ']) == [' ']
  {
    assert IsFolded(' ');
  }

  lemma CollapseUnfoldSpace(x: string)
    requires x != [] && IsSpace(x[0])
    ensures CollapseSpaces(x) == [' '] + CollapseSpaces(TrimStart(x[1..]))
  {
  }

  lemma {:induction false} CollapseFoldAtLetter(s: string)
    requires s != [] && !IsSpace(s[0])
    ensures CollapseSpaces(FoldLetters(s)) == FoldLetters(CollapseSpaces(s))
    decreases |s|, 0
  {
    var t := s[1..];
    FoldLettersCons(s);
    FoldCharSpace(s[0]);
    CollapseFold(t);
    FoldLettersConcat([s[0]], CollapseSpaces(t));
  }

  lemma FoldLettersCons(s: string)
    requires s != []
    ensures FoldLetters(s) == [FoldChar(s[0])] + FoldLetters(s[1..])
  {
  }

  /** The letter replacements produce no letter that another replacement changes. */
  lemma FoldLettersIdempotent(s: string)
    ensures FoldLetters(FoldLetters(s)) == FoldLetters(s)
  {
  }

  /** Normalisation depends only on the letter-folded text. */
  lemma NormalizeOfFolded(s: string)
    ensures NormalizeText(s) == CollapseSpaces(Trim(FoldLetters(s)))
  {
    TrimStartFold(s);
    TrimEndFold(TrimStart(s));
    CollapseFold(Trim(s));
  }

  /** Two texts whose characters fold pairwise to the same letters (for instance
      names that differ only in the hamza of an alef) normalise to the same string. */
  lemma NormalizeRespectsFolding(s: string, t: string)
    requires |s| == |t|
    requires forall i :: 0 <= i < |s| ==> FoldChar(s[i]) == FoldChar(t[i])
    ensures NormalizeText(s) == NormalizeText(t)
  {
    NormalizeOfFolded(s);
    NormalizeOfFolded(t);
    assert FoldLetters(s) == FoldLetters(t);
  }

  /** Writing an alef with hamza above, with hamza below or with madda instead of
      a plain alef, anywhere in a text, does not change its normal form. */
  lemma AlefVariantsAgree(a: string, b: string, v: char)
    requires v in {AlefHamzaAbove, AlefHamzaBelow, AlefMadda}
    ensures NormalizeText(a + [v] + b) == NormalizeText(a + [Alef] + b)
  {
    var s, t := a + [v] + b, a + [Alef] + b;
    forall i | 0 <= i < |s| ensures FoldChar(s[i]) == FoldChar(t[i]) {
      if i != |a| {
        assert s[i] == t[i];
      }
    }
    NormalizeRespectsFolding(s, t);
  }

  // ---------------------------------------------------------------------------
  // Search terms

  /** `parts.join(' ')`. */
  function Join(parts: seq<string>): string {
    if parts == [] then []
    else if |parts| == 1 then parts[0]
    else parts[0] + [' '] + Join(parts[1..])
  }

  /** `s.split(' ')`: the pieces between single spaces, including the empty ones;
      joining them back gives the text. */
  function Split(s: string): (parts: seq<string>)
    ensures |parts| >= 1
    ensures forall k :: 0 <= k < |parts| ==> ' ' !in parts[k]
    ensures Join(parts) == s
  {
    if s == [] then [[]]
    else if s[0] == ' ' then
      var rest := Split(s[1..]);
      assert [s[0]] + s[1..] == s;
      [[]] + rest
    else
      var rest := Split(s[1..]);
      var parts := [[s[0]] + rest[0]] + rest[1..];
      assert Join(parts) == [s[0]] + Join(rest) by {
        if |rest| > 1 {
          assert parts[1..] == rest[1..];
        }
      }
      assert [s[0]] + s[1..] == s;
      parts
  }

  predicate IsWord(w: string) { |w| > 0 }

  /** `getSearchTerms`: the non-empty pieces of the normalised text. Its branches
      on the number of words all return the word list itself. */
  function GetSearchTerms(text: string): seq<string> {
    TermsOf(NormalizeText(text))
  }

  /** The word list of `getSearchTerms`, taken from an already normalised text. */
  function TermsOf(n: string): seq<string> {
    var words := Filter(Split(n), IsWord);
    if |words| == 1 then [words[0]]
    else if |words| >= 2 then words[..if 2 > |words| then 2 else |words|]
    else words
  }

  /** No space at either end of `s` and no two spaces in a row. */
  predicate SingleSpaced(s: string) {
    (s != [] ==> s[0] != ' ' && s[|s| - 1] != ' ')
    && forall i :: 0 <= i < |s| - 1 ==> !(s[i] == ' ' && s[i + 1] == ' ')
  }

  lemma NormalizedSingleSpaced(n: string)
    requires IsNormalized(n)
    ensures SingleSpaced(n) && SpacesArePlain(n)
  {
    assert NoDoubleSpace(n);
  }

  /** Splitting a text with no space at its end and no two spaces in a row
      yields only non-empty pieces, except possibly the first. */
  lemma {:induction false} SplitPiecesNonEmpty(s: string)
    requires s != [] ==> s[|s| - 1] != ' '
    requires forall i :: 0 <= i < |s| - 1 ==> !(s[i] == ' ' && s[i + 1] == ' ')
    ensures forall k :: 1 <= k < |Split(s)| ==> Split(s)[k] != []
    ensures s != [] && s[0] != ' ' ==> Split(s)[0] != []
  {
    if s != [] {
      SplitPiecesNonEmpty(s[1..]);
      if s[0] == ' ' {
        assert s[1..] != [] && s[1..][0] != ' ';
      }
    }
  }

  /** Every piece of a non-empty single-spaced text is non-empty. */
  lemma PiecesNonEmpty(s: string)
    requires SingleSpaced(s) && s != []
    ensures forall k :: 0 <= k < |Split(s)| ==> Split(s)[k] != []
  {
    SplitPiecesNonEmpty(s);
  }

  /** The branches of `getSearchTerms` on the number of words all return the
      word list unchanged. */
  lemma SearchTermsBranches(n: string)
    ensures TermsOf(n) == Filter(Split(n), IsWord)
  {
    var words := Filter(Split(n), IsWord);
    if |words| == 1 {
      assert [words[0]] == words;
    }
  }

  /** The words of a single-spaced text are all its pieces. */
  lemma WordsOfNormalized(n: string)
    requires SingleSpaced(n)
    ensures Filter(Split(n), IsWord) == if n == [] then [] else Split(n)
  {
    if n != [] {
      var parts := Split(n);
      PiecesNonEmpty(n);
      forall w | w in parts ensures IsWord(w) {
        var k :| 0 <= k < |parts| && parts[k] == w;
      }
      FilterAll(parts, IsWord);
    }
  }

  /** No piece of a normalised text holds a whitespace character. */
  lemma PiecesHaveNoSpace(n: string)
    requires SpacesArePlain(n)
    ensures forall k, c :: 0 <= k < |Split(n)| && c in Split(n)[k] ==> !IsSpace(c)
  {
    var parts := Split(n);
    forall k, c | 0 <= k < |parts| && c in parts[k] ensures !IsSpace(c) {
      JoinedPartIn(parts, parts[k], c);
      var i :| 0 <= i < |n| && n[i] == c;
    }
  }

  /** The search terms are exactly the words of the normalised text: each one is
      non-empty and free of whitespace, and joining them with single spaces gives
      the normalised text back. */
  lemma SearchTermsAreWords(text: string)
    ensures forall k :: 0 <= k < |GetSearchTerms(text)| ==>
      GetSearchTerms(text)[k] != [] && forall c :: c in GetSearchTerms(text)[k] ==> !IsSpace(c)
    ensures Join(GetSearchTerms(text)) == NormalizeText(text)
    ensures GetSearchTerms(text) == [] <==> NormalizeText(text) == []
  {
    NormalizeTextShape(text);
    SearchTermsBranches(NormalizeText(text));
    NormalizedSingleSpaced(NormalizeText(text));
    WordsOfNormalizedText(NormalizeText(text));
  }

  /** The words of a normalised text are non-empty and free of whitespace, and
      joining them with single spaces gives the text back. */
  lemma WordsOfNormalizedText(n: string)
    requires SingleSpaced(n) && SpacesArePlain(n)
    ensures forall k :: 0 <= k < |Filter(Split(n), IsWord)| ==>
      Filter(Split(n), IsWord)[k] != [] && forall c :: c in Filter(Split(n), IsWord)[k] ==> !IsSpace(c)
    ensures Join(Filter(Split(n), IsWord)) == n
    ensures Filter(Split(n), IsWord) == [] <==> n == []
  {
    WordsOfNormalized(n);
    PiecesHaveNoSpace(n);
    if n != [] {
      PiecesNonEmpty(n);
    }
  }

  /** A character of one piece of a join is a character of the joined text. */
  lemma {:induction false} JoinedPartIn(parts: seq<string>, w: string, c: char)
    requires w in parts && c in w
    ensures c in Join(parts)
  {
    if |parts| > 1 && w != parts[0] {
      assert w in parts[1..];
      JoinedPartIn(parts[1..], w, c);
    }
  }
}
