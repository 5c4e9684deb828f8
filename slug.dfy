/**
 * `GenerateSlug`, the title-to-URL normaliser. The source carries three
 * textually identical copies (the two PostsControllers and TagsController);
 * this module is the one definition all three controllers call.
 *
 * The pipeline, step by step:
 *   lower-case, fold the Turkish letters ş ğ ü ö ç ı to ASCII, turn ' ' into
 *   '-', drop apostrophes, delete everything outside [a-z0-9-], collapse runs
 *   of '-', and trim '-' from both ends.
 */
module Slug {

  /** Lower-case ASCII letters and digits: what survives besides '-'. */
  predicate IsAlnum(c: char) {
    'a' <= c <= 'z' || '0' <= c <= '9'
  }

  /** The character class `[a-z0-9\-]` that the first regular expression keeps. */
  predicate IsSlugChar(c: char) {
    IsAlnum(c) || c == '-'
  }

  predicate NotApostrophe(c: char) {
    c != '\''
  }

  predicate NotHyphen(c: char) {
    c != '-'
  }

  /**
   * `ToLowerInvariant` on one character, restricted to ASCII and to the
   * Turkish capitals whose lower-case forms the pipeline folds afterwards.
   */
  function LowerChar(c: char): char {
    if 'A' <= c <= 'Z' then (c as int + 32) as char
    else if c == 'Ş' then 'ş'
    else if c == 'Ğ' then 'ğ'
    else if c == 'Ü' then 'ü'
    else if c == 'Ö' then 'ö'
    else if c == 'Ç' then 'ç'
    else c
  }

  /**
   * The six `Replace(char, char)` calls for the Turkish letters. None of their
   * outputs is an input of a later one, so they compose into one map.
   */
  function FoldTurkish(c: char): char {
    if c == 'ş' then 's'
    else if c == 'ğ' then 'g'
    else if c == 'ü' then 'u'
    else if c == 'ö' then 'o'
    else if c == 'ç' then 'c'
    else if c == 'ı' then 'i'
    else c
  }

  /** `Replace(' ', '-')`. */
  function SpaceToHyphen(c: char): char {
    if c == ' ' then '-' else c
  }

  /** Applies `f` to every character. */
  function MapChars(s: string, f: char -> char): (r: string)
    ensures |r| == |s|
    ensures forall i :: 0 <= i < |s| ==> r[i] == f(s[i])
  {
    if s == [] then [] else [f(s[0])] + MapChars(s[1..], f)
  }

  /** Keeps the characters satisfying `keep`, in order. */
  function Filter(s: string, keep: char -> bool): (r: string)
    ensures |r| <= |s|
    ensures forall i :: 0 <= i < |r| ==> keep(r[i]) && r[i] in s
  {
    if s == [] then [] else (if keep(s[0]) then [s[0]] else []) + Filter(s[1..], keep)
  }

  /** `Regex.Replace(s, "-+", "-")`: every run of '-' becomes one '-'. */
  function CollapseHyphens(s: string): (r: string)
    ensures |r| <= |s|
    ensures forall i :: 0 <= i < |r| ==> r[i] in s
    ensures s != [] ==> r != [] && r[0] == s[0]
    ensures NoDoubleHyphen(r)
  {
    if |s| <= 1 then s
    else if s[0] == '-' && s[1] == '-' then CollapseHyphens(s[1..])
    else [s[0]] + CollapseHyphens(s[1..])
  }

  /** Removes the leading '-' characters. */
  function TrimStart(s: string): (r: string)
    ensures |r| <= |s| && r == s[|s| - |r|..]
    ensures r == [] || r[0] != '-'
  {
    if s != [] && s[0] == '-' then TrimStart(s[1..]) else s
  }

  /** Removes the trailing '-' characters. */
  function TrimEnd(s: string): (r: string)
    ensures |r| <= |s| && r == s[..|r|]
    ensures r == [] || r[|r| - 1] != '-'
  {
    if s != [] && s[|s| - 1] == '-' then TrimEnd(s[..|s| - 1]) else s
  }

  /** `Trim('-')`. */
  function TrimHyphens(s: string): string {
    TrimEnd(TrimStart(s))
  }

  predicate AllSlugChars(s: string) {
    forall i :: 0 <= i < |s| ==> IsSlugChar(s[i])
  }

  predicate NoDoubleHyphen(s: string) {
    forall i :: 0 <= i < |s| - 1 ==> !(s[i] == '-' && s[i + 1] == '-')
  }

  /**
   * A well-formed slug: only [a-z0-9-], no "--", and no '-' at either end.
   */
  predicate IsSlug(s: string) {
    AllSlugChars(s) && NoDoubleHyphen(s) && (s == [] || (s[0] != '-' && s[|s| - 1] != '-'))
  }

  /** The lower-cased and folded title, before any character is removed. */
  function Folded(title: string): string {
    MapChars(MapChars(title, LowerChar), FoldTurkish)
  }

  /** The cleaned string before hyphen runs are collapsed and trimmed. */
  function Cleaned(title: string): (r: string)
    ensures AllSlugChars(r)
  {
    var hyphenated := MapChars(Folded(title), SpaceToHyphen);
    Filter(Filter(hyphenated, NotApostrophe), IsSlugChar)
  }

  /** The slug of a title (PostsController.GenerateSlug, TagsController.GenerateSlug). */
  function GenerateSlug(title: string): (slug: string)
    ensures IsSlug(slug)
  {
    var c := CollapseHyphens(Cleaned(title));
    TrimShape(c);
    TrimHyphens(c)
  }

  /** The letters and digits of `s`, in order. */
  function Alnums(s: string): string {
    Filter(s, IsAlnum)
  }

  // ---------------------------------------------------------------------------
  // Lemmas about the steps
  // ---------------------------------------------------------------------------

  /** A slice of a string of slug characters without "--" has the same two properties. */
  lemma SliceShape(s: string, lo: nat, hi: nat)
    requires lo <= hi <= |s|
    requires AllSlugChars(s) && NoDoubleHyphen(s)
    ensures AllSlugChars(s[lo..hi]) && NoDoubleHyphen(s[lo..hi])
  {
    var t := s[lo..hi];
    forall i | 0 <= i < |t| - 1
      ensures !(t[i] == '-' && t[i + 1] == '-')
    {
      assert t[i] == s[lo + i] && t[i + 1] == s[lo + i + 1];
    }
  }

  /** Trimming a string of slug characters without "--" yields a well-formed slug. */
  lemma TrimShape(s: string)
    requires AllSlugChars(s) && NoDoubleHyphen(s)
    ensures IsSlug(TrimHyphens(s))
  {
    var a := TrimStart(s);
    SliceShape(s, |s| - |a|, |s|);
    var r := TrimEnd(a);
    SliceShape(a, 0, |r|);
    assert r != [] ==> r[0] == a[0];
  }

  lemma {:induction false} FilterAppend(a: string, b: string, keep: char -> bool)
    ensures Filter(a + b, keep) == Filter(a, keep) + Filter(b, keep)
  {
    if a == [] {
      assert a + b == b;
    } else {
      assert (a + b)[1..] == a[1..] + b;
      FilterAppend(a[1..], b, keep);
    }
  }

  lemma {:induction false} FilterIdentity(s: string, keep: char -> bool)
    requires forall i :: 0 <= i < |s| ==> keep(s[i])
    ensures Filter(s, keep) == s
  {
    if s != [] {
      FilterIdentity(s[1..], keep);
    }
  }

  /** Filtering by a stronger test after a weaker one is filtering by the stronger one. */
  lemma {:induction false} FilterFilter(s: string, weak: char -> bool, strong: char -> bool)
    requires forall c :: strong(c) ==> weak(c)
    ensures Filter(Filter(s, weak), strong) == Filter(s, strong)
  {
    if s != [] {
      var head := if weak(s[0]) then [s[0]] else [];
      FilterAppend(head, Filter(s[1..], weak), strong);
      FilterFilter(s[1..], weak, strong);
    }
  }

  /** Two tests that agree on every character of `s` keep the same characters. */
  lemma {:induction false} FilterCongruent(s: string, p: char -> bool, q: char -> bool)
    requires forall i :: 0 <= i < |s| ==> p(s[i]) == q(s[i])
    ensures Filter(s, p) == Filter(s, q)
  {
    if s != [] {
      FilterCongruent(s[1..], p, q);
    }
  }

  /**
   * A map that changes only characters `keep` rejects, and never into one it
   * accepts, does not change what `keep` keeps.
   */
  lemma {:induction false} FilterMapChars(s: string, f: char -> char, keep: char -> bool)
    requires forall c :: keep(f(c)) == keep(c)
    requires forall c :: keep(c) ==> f(c) == c
    ensures Filter(MapChars(s, f), keep) == Filter(s, keep)
  {
    if s != [] {
      assert MapChars(s, f)[1..] == MapChars(s[1..], f);
      FilterMapChars(s[1..], f, keep);
    }
  }

  lemma MapCharsIdentity(s: string, f: char -> char)
    requires forall i :: 0 <= i < |s| ==> f(s[i]) == s[i]
    ensures MapChars(s, f) == s
  {
  }

  lemma {:induction false} CollapseIdentity(s: string)
    requires NoDoubleHyphen(s)
    ensures CollapseHyphens(s) == s
  {
    if |s| > 1 {
      CollapseIdentity(s[1..]);
    }
  }

  lemma {:induction false} CollapseKeepsAlnums(s: string)
    ensures Alnums(CollapseHyphens(s)) == Alnums(s)
  {
    if |s| > 1 {
      CollapseKeepsAlnums(s[1..]);
      FilterAppend([s[0]], CollapseHyphens(s[1..]), IsAlnum);
    }
  }

  lemma {:induction false} TrimStartKeepsAlnums(s: string)
    ensures Alnums(TrimStart(s)) == Alnums(s)
  {
    if s != [] && s[0] == '-' {
      TrimStartKeepsAlnums(s[1..]);
    }
  }

  lemma {:induction false} TrimEndKeepsAlnums(s: string)
    ensures Alnums(TrimEnd(s)) == Alnums(s)
  {
    if s != [] && s[|s| - 1] == '-' {
      var init := s[..|s| - 1];
      TrimEndKeepsAlnums(init);
      assert s == init + [s[|s| - 1]];
      FilterAppend(init, [s[|s| - 1]], IsAlnum);
    }
  }

  // ---------------------------------------------------------------------------
  // Properties of GenerateSlug
  // ---------------------------------------------------------------------------

  /** A well-formed slug passes through every step unchanged. */
  lemma SlugOfSlug(s: string)
    requires IsSlug(s)
    ensures GenerateSlug(s) == s
  {
    MapCharsIdentity(s, LowerChar);
    MapCharsIdentity(s, FoldTurkish);
    MapCharsIdentity(s, SpaceToHyphen);
    FilterIdentity(s, NotApostrophe);
    FilterIdentity(s, IsSlugChar);
    assert Cleaned(s) == s;
    CollapseIdentity(s);
  }

  /** GenerateSlug is idempotent. */
  lemma SlugIdempotent(title: string)
    ensures GenerateSlug(GenerateSlug(title)) == GenerateSlug(title)
  {
    SlugOfSlug(GenerateSlug(title));
  }

  /** The strings GenerateSlug leaves unchanged are exactly the well-formed slugs. */
  lemma SlugFixedPoints(s: string)
    ensures GenerateSlug(s) == s <==> IsSlug(s)
  {
    if IsSlug(s) {
      SlugOfSlug(s);
    }
  }

  /**
   * The characters of a slug other than '-' are the letters and digits of the
   * lower-cased, folded title, all of them and in their original order.
   */
  lemma SlugKeepsLetters(title: string)
    ensures Filter(GenerateSlug(title), NotHyphen) == Alnums(Folded(title))
  {
    var folded := Folded(title);
    var hyphenated := MapChars(folded, SpaceToHyphen);
    var noApostrophes := Filter(hyphenated, NotApostrophe);
    var cleaned := Filter(noApostrophes, IsSlugChar);
    var collapsed := CollapseHyphens(cleaned);
    var slug := GenerateSlug(title);
    calc {
      Filter(slug, NotHyphen);
      { FilterCongruent(slug, NotHyphen, IsAlnum); }
      Alnums(TrimEnd(TrimStart(collapsed)));
      { TrimEndKeepsAlnums(TrimStart(collapsed)); TrimStartKeepsAlnums(collapsed); }
      Alnums(collapsed);
      { CollapseKeepsAlnums(cleaned); }
      Alnums(cleaned);
      { FilterFilter(noApostrophes, IsSlugChar, IsAlnum); }
      Alnums(noApostrophes);
      { FilterFilter(hyphenated, NotApostrophe, IsAlnum); }
      Alnums(hyphenated);
      { FilterMapChars(folded, SpaceToHyphen, IsAlnum); }
      Alnums(folded);
    }
  }

  lemma {:induction false} MapCharsAppend(a: string, b: string, f: char -> char)
    ensures MapChars(a + b, f) == MapChars(a, f) + MapChars(b, f)
  {
    if a == [] {
      assert a + b == b;
    } else {
      assert (a + b)[1..] == a[1..] + b;
      MapCharsAppend(a[1..], b, f);
    }
  }

  lemma FoldedAppend(a: string, b: string)
    ensures Folded(a + b) == Folded(a) + Folded(b)
  {
    MapCharsAppend(a, b, LowerChar);
    MapCharsAppend(MapChars(a, LowerChar), MapChars(b, LowerChar), FoldTurkish);
  }

  // The worked example, a few characters at a time: each step is a small
  // literal computation, and the appends glue them together.

  lemma ExamplePiece1()
    ensures Folded("Akıllı") == "akilli"
  {
  }

  lemma ExamplePiece2()
    ensures Folded(" Depo") == " depo"
  {
  }

  lemma ExamplePiece3()
    ensures Folded(" Sist") == " sist"
  {
  }

  lemma ExamplePiece4()
    ensures Folded("emleri") == "emleri"
  {
  }

  /** Folding four pieces one at a time folds their concatenation. */
  lemma FoldedPieces(a: string, b: string, c: string, d: string, fa: string, fb: string, fc: string, fd: string)
    requires Folded(a) == fa && Folded(b) == fb && Folded(c) == fc && Folded(d) == fd
    ensures Folded(a + b + c + d) == fa + fb + fc + fd
  {
    FoldedAppend(a, b);
    FoldedAppend(a + b, c);
    FoldedAppend(a + b + c, d);
  }

  /** Hyphenating four pieces one at a time hyphenates their concatenation. */
  lemma HyphenPieces(a: string, b: string, c: string, d: string, ha: string, hb: string, hc: string, hd: string)
    requires MapChars(a, SpaceToHyphen) == ha && MapChars(b, SpaceToHyphen) == hb
    requires MapChars(c, SpaceToHyphen) == hc && MapChars(d, SpaceToHyphen) == hd
    ensures MapChars(a + b + c + d, SpaceToHyphen) == ha + hb + hc + hd
  {
    MapCharsAppend(a, b, SpaceToHyphen);
    MapCharsAppend(a + b, c, SpaceToHyphen);
    MapCharsAppend(a + b + c, d, SpaceToHyphen);
  }

  lemma ExampleSplits()
    ensures "Akıllı Depo Sistemleri" == "Akıllı" + " Depo" + " Sist" + "emleri"
    ensures "akilli depo sistemleri" == "akilli" + " depo" + " sist" + "emleri"
    ensures "akilli-depo-sistemleri" == "akilli" + "-depo" + "-sist" + "emleri"
  {
  }

  lemma ExampleHyphen1()
    ensures MapChars("akilli", SpaceToHyphen) == "akilli"
  {
  }

  lemma ExampleHyphen2()
    ensures MapChars(" depo", SpaceToHyphen) == "-depo"
  {
  }

  lemma ExampleHyphen3()
    ensures MapChars(" sist", SpaceToHyphen) == "-sist"
  {
  }

  lemma ExampleHyphen4()
    ensures MapChars("emleri", SpaceToHyphen) == "emleri"
  {
  }

  lemma ExampleHyphenated()
    ensures MapChars(Folded("Akıllı Depo Sistemleri"), SpaceToHyphen) == "akilli-depo-sistemleri"
  {
    ExampleSplits();
    ExamplePiece1();
    ExamplePiece2();
    ExamplePiece3();
    ExamplePiece4();
    FoldedPieces("Akıllı", " Depo", " Sist", "emleri", "akilli", " depo", " sist", "emleri");
    ExampleHyphen1();
    ExampleHyphen2();
    ExampleHyphen3();
    ExampleHyphen4();
    HyphenPieces("akilli", " depo", " sist", "emleri", "akilli", "-depo", "-sist", "emleri");
  }

  /** Any title whose hyphenated form is already a slug generates exactly that slug. */
  lemma SlugOfHyphenated(title: string)
    requires IsSlug(MapChars(Folded(title), SpaceToHyphen))
    ensures GenerateSlug(title) == MapChars(Folded(title), SpaceToHyphen)
  {
    var h := MapChars(Folded(title), SpaceToHyphen);
    FilterIdentity(h, NotApostrophe);
    FilterIdentity(h, IsSlugChar);
    assert Cleaned(title) == h;
    CollapseIdentity(h);
    assert TrimStart(h) == h && TrimEnd(h) == h;
  }

  lemma ExampleIsSlug()
    ensures IsSlug("akilli-depo-sistemleri")
  {
  }

  /** The worked example of the source's route comment. */
  lemma SlugExample()
    ensures GenerateSlug("Akıllı Depo Sistemleri") == "akilli-depo-sistemleri"
  {
    ExampleHyphenated();
    ExampleIsSlug();
    SlugOfHyphenated("Akıllı Depo Sistemleri");
  }
}
