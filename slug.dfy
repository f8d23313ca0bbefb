/**
 * URL slugs, as lib/utils/slug.ts builds them: `slugify` lower-cases, trims,
 * turns whitespace runs into hyphens, drops every character outside
 * `[A-Za-z0-9_-]`, squeezes hyphen runs and strips hyphens at both ends;
 * `generateMovieSlug` appends the release year when one can be read.
 */
module Slug {
  import opened Text
  import opened Options

  /** The characters a slug is made of. */
  predicate IsSlugChar(c: char) {
    IsLower(c) || IsDigit(c) || c == '_' || c == '-'
  }

  predicate AllSlugChars(s: string) {
    forall i :: 0 <= i < |s| ==> IsSlugChar(s[i])
  }

  predicate NoUpper(s: string) {
    forall i :: 0 <= i < |s| ==> !IsUpper(s[i])
  }

  predicate NoSpace(s: string) {
    forall i :: 0 <= i < |s| ==> !IsSpace(s[i])
  }

  predicate NoDoubleHyphen(s: string) {
    forall i :: 0 <= i < |s| - 1 ==> !(s[i] == '-' && s[i + 1] == '-')
  }

  /** A well-formed slug: slug characters only, no `--`, no hyphen at either end. */
  predicate IsSlug(s: string) {
    && AllSlugChars(s)
    && NoDoubleHyphen(s)
    && (s != [] ==> s[0] != '-' && s[|s| - 1] != '-')
  }

  /** `.replace(/\s+/g, '-')`: every maximal run of whitespace becomes one hyphen
      (a space followed by a space is dropped, the last of a run becomes `-`). */
  function HyphenateSpaces(s: string): (r: string)
    ensures |r| <= |s|
    decreases |s|
  {
    if s == [] then []
    else if IsSpace(s[0]) then
      if |s| > 1 && IsSpace(s[1]) then HyphenateSpaces(s[1..]) else "-" + HyphenateSpaces(s[1..])
    else [s[0]] + HyphenateSpaces(s[1..])
  }

  /** No whitespace is left after the hyphenation. */
  lemma {:induction false} HyphenateRemovesSpace(s: string)
    ensures NoSpace(HyphenateSpaces(s))
    decreases |s|
  {
    if s != [] {
      var t := HyphenateSpaces(s[1..]);
      HyphenateRemovesSpace(s[1..]);
      var c := if IsSpace(s[0]) then '-' else s[0];
      forall i | 0 <= i < |[c] + t| ensures !IsSpace(([c] + t)[i]) {
        if i > 0 { assert ([c] + t)[i] == t[i - 1]; }
      }
    }
  }

  /** The hyphenation brings in no upper-case letter. */
  lemma {:induction false} HyphenateKeepsNoUpper(s: string)
    requires NoUpper(s)
    ensures NoUpper(HyphenateSpaces(s))
    decreases |s|
  {
    if s != [] {
      assert NoUpper(s[1..]) by {
        forall i | 0 <= i < |s| - 1 ensures !IsUpper(s[1..][i]) {
          assert s[1..][i] == s[i + 1];
        }
      }
      var t := HyphenateSpaces(s[1..]);
      HyphenateKeepsNoUpper(s[1..]);
      var c := if IsSpace(s[0]) then '-' else s[0];
      forall i | 0 <= i < |[c] + t| ensures !IsUpper(([c] + t)[i]) {
        if i > 0 { assert ([c] + t)[i] == t[i - 1]; }
      }
    }
  }

  /** Text without whitespace passes the hyphenation unchanged. */
  lemma HyphenateKeepsNoSpace(s: string)
    requires NoSpace(s)
    ensures HyphenateSpaces(s) == s
  {
    HyphenateSpacesAppend(s, []);
    assert s + [] == s;
  }

  /** `.replace(/[^\w\-]+/g, '')`: keeps word characters and hyphens only. */
  function DropNonWord(s: string): (r: string)
    ensures |r| <= |s|
    ensures forall i :: 0 <= i < |r| ==> IsWordChar(r[i]) || r[i] == '-'
    ensures NoUpper(s) ==> NoUpper(r)
    ensures AllSlugChars(s) ==> r == s
    decreases |s|
  {
    if s == [] then []
    else if IsWordChar(s[0]) || s[0] == '-' then [s[0]] + DropNonWord(s[1..])
    else DropNonWord(s[1..])
  }

  /** `.replace(/\-\-+/g, '-')`: every run of two or more hyphens becomes one. */
  function SqueezeHyphens(s: string): (r: string)
    ensures |r| <= |s|
    ensures s != [] ==> r != [] && r[0] == s[0]
    ensures NoDoubleHyphen(r)
    ensures AllSlugChars(s) ==> AllSlugChars(r)
    ensures NoDoubleHyphen(s) ==> r == s
    decreases |s|
  {
    if s == [] then []
    else if s[0] == '-' && |s| > 1 && s[1] == '-' then SqueezeHyphens(s[1..])
    else [s[0]] + SqueezeHyphens(s[1..])
  }

  /** `.replace(/^-+/, '')`: removes the leading hyphens, and nothing else. */
  function TrimLeadingHyphens(s: string): (r: string)
    ensures |r| <= |s| && r == s[|s| - |r|..]
    ensures forall i :: 0 <= i < |s| - |r| ==> s[i] == '-'
    ensures r == [] || r[0] != '-'
    ensures AllSlugChars(s) ==> AllSlugChars(r)
    ensures NoDoubleHyphen(s) ==> NoDoubleHyphen(r)
    decreases |s|
  {
    if s != [] && s[0] == '-' then TrimLeadingHyphens(s[1..]) else s
  }

  /** `.replace(/-+$/, '')`: removes the trailing hyphens, and nothing else. */
  function TrimTrailingHyphens(s: string): (r: string)
    ensures |r| <= |s| && r == s[..|r|]
    ensures forall i :: |r| <= i < |s| ==> s[i] == '-'
    ensures r == [] || r[|r| - 1] != '-'
    ensures AllSlugChars(s) ==> AllSlugChars(r)
    ensures NoDoubleHyphen(s) ==> NoDoubleHyphen(r)
    decreases |s|
  {
    if s != [] && s[|s| - 1] == '-' then TrimTrailingHyphens(s[..|s| - 1]) else s
  }

  /** `.replace(/[^\w\-]+/g, '')` works character by character: what is kept
      of two pieces one after the other is what is kept of the first followed
      by what is kept of the second. */
  lemma {:induction false} DropNonWordAppend(a: string, b: string)
    ensures DropNonWord(a + b) == DropNonWord(a) + DropNonWord(b)
    decreases |a|
  {
    if a == [] {
      assert a + b == b;
    } else {
      assert (a + b)[0] == a[0] && (a + b)[1..] == a[1..] + b;
      DropNonWordAppend(a[1..], b);
    }
  }

  /** A word character or hyphen is kept; any other character is dropped. */
  lemma DropNonWordChar(c: char)
    ensures DropNonWord([c]) == if IsWordChar(c) || c == '-' then [c] else []
  {
    assert [c][1..] == [];
  }

  /** A run of `k` hyphens. */
  function Hyphens(k: nat): (r: string)
    ensures |r| == k && forall i :: 0 <= i < k ==> r[i] == '-'
  {
    seq(k, i => '-')
  }

  predicate AllHyphens(s: string) {
    forall i :: 0 <= i < |s| ==> s[i] == '-'
  }

  /** No run of hyphens spans the end of text that does not end in a hyphen,
      so that text is squeezed on its own. */
  lemma {:induction false} SqueezeAppend(w: string, x: string)
    requires w == [] || w[|w| - 1] != '-'
    ensures SqueezeHyphens(w + x) == SqueezeHyphens(w) + SqueezeHyphens(x)
    decreases |w|
  {
    if w == [] {
      assert w + x == x;
    } else {
      var s := w + x;
      assert s[0] == w[0] && s[1..] == w[1..] + x;
      if |w| == 1 {
        assert w == [w[0]] && s[1..] == x;
        assert SqueezeHyphens(w) == [w[0]] + SqueezeHyphens([]);
        assert SqueezeHyphens(s) == [w[0]] + SqueezeHyphens(x);
      } else {
        assert s[1] == w[1];
        SqueezeAppend(w[1..], x);
        if w[0] == '-' && w[1] == '-' {
          assert SqueezeHyphens(s) == SqueezeHyphens(w[1..] + x);
        } else {
          assert SqueezeHyphens(s) == [w[0]] + SqueezeHyphens(w[1..] + x);
          assert SqueezeHyphens(w) == [w[0]] + SqueezeHyphens(w[1..]);
        }
      }
    }
  }

  /** A run of `k >= 1` hyphens before text that does not start with a hyphen
      becomes exactly one hyphen. */
  lemma {:induction false} SqueezeRun(k: nat, t: string)
    requires k >= 1 && (t == [] || t[0] != '-')
    ensures SqueezeHyphens(Hyphens(k) + t) == "-" + SqueezeHyphens(t)
    decreases k
  {
    var s := Hyphens(k) + t;
    assert s[0] == '-';
    if k == 1 {
      assert s[1..] == t;
    } else {
      assert s[1] == '-' && s[1..] == Hyphens(k - 1) + t;
      SqueezeRun(k - 1, t);
    }
  }

  /** A run of hyphens between text that does not end in a hyphen and text
      that does not start with one becomes a single hyphen, and the text on
      either side is squeezed as it would be alone. */
  lemma SqueezeHyphenRun(w: string, k: nat, t: string)
    requires w == [] || w[|w| - 1] != '-'
    requires k >= 1 && (t == [] || t[0] != '-')
    ensures SqueezeHyphens(w + Hyphens(k) + t) == SqueezeHyphens(w) + "-" + SqueezeHyphens(t)
  {
    assert w + Hyphens(k) + t == w + (Hyphens(k) + t);
    SqueezeAppend(w, Hyphens(k) + t);
    SqueezeRun(k, t);
    assert SqueezeHyphens(w) + ("-" + SqueezeHyphens(t)) == SqueezeHyphens(w) + "-" + SqueezeHyphens(t);
  }

  /** The last four steps of `slugify`. */
  function Clean(s: string): (r: string)
    ensures |r| <= |s|
    ensures NoDoubleHyphen(r) && (r != [] ==> r[0] != '-' && r[|r| - 1] != '-')
  {
    TrimTrailingHyphens(TrimLeadingHyphens(SqueezeHyphens(DropNonWord(s))))
  }

  /** `slugify(text)`. */
  function Slugify(text: string): (r: string)
    ensures IsSlug(r)
  {
    LowerTrimmedHasNoUpper(text);
    HyphenateKeepsNoUpper(Trim(ToLower(text)));
    var s := HyphenateSpaces(Trim(ToLower(text)));
    CleanIsSlug(s);
    Clean(s)
  }

  lemma LowerTrimmedHasNoUpper(text: string)
    ensures NoUpper(Trim(ToLower(text)))
  {
    TrimKeepsNoUpper(ToLower(text));
  }

  lemma TrimKeepsNoUpper(l: string)
    requires NoUpper(l)
    ensures NoUpper(Trim(l))
  {
    var a := TrimStart(l);
    forall i | 0 <= i < |a| ensures !IsUpper(a[i]) {
      assert a[i] == l[|l| - |a| + i];
    }
    TrimEndKeepsNoUpper(a);
  }

  lemma TrimEndKeepsNoUpper(a: string)
    requires NoUpper(a)
    ensures NoUpper(TrimEnd(a))
  {
    var b := TrimEnd(a);
    forall i | 0 <= i < |b| ensures !IsUpper(b[i]) {
      assert b[i] == a[i];
    }
  }

  /** After the lower-casing, whatever the remaining steps keep is a slug. */
  lemma CleanIsSlug(s: string)
    requires NoUpper(s)
    ensures IsSlug(Clean(s))
  {
    var d := DropNonWord(s);
    assert AllSlugChars(d) by {
      forall i | 0 <= i < |d| ensures IsSlugChar(d[i]) {
        assert !IsUpper(d[i]);
      }
    }
  }

  /** A slug passes through every step of `slugify` unchanged. */
  lemma SlugIsFixedPoint(s: string)
    requires IsSlug(s)
    ensures Slugify(s) == s
  {
    assert ToLower(s) == s by {
      forall i | 0 <= i < |s| ensures ToLower(s)[i] == s[i] {
        assert IsSlugChar(s[i]);
      }
    }
    assert NoSpace(s) by {
      forall i | 0 <= i < |s| ensures !IsSpace(s[i]) {
        assert IsSlugChar(s[i]);
      }
    }
    if s != [] {
      TrimKeeps(s);
    }
    HyphenateKeepsNoSpace(s);
    CleanKeepsSlug(s);
  }

  /** The last four steps leave a slug unchanged. */
  lemma CleanKeepsSlug(s: string)
    requires IsSlug(s)
    ensures Clean(s) == s
  {
    assert DropNonWord(s) == s;
    assert SqueezeHyphens(s) == s;
    assert TrimLeadingHyphens(s) == s;
    assert TrimTrailingHyphens(s) == s;
  }

  /** `slugify` is idempotent. */
  lemma SlugifyIdempotent(text: string)
    ensures Slugify(Slugify(text)) == Slugify(text)
  {
    SlugIsFixedPoint(Slugify(text));
  }

  /** A word: a non-empty run of letters, digits and underscores. */
  predicate IsWord(w: string) {
    w != [] && forall i :: 0 <= i < |w| ==> IsWordChar(w[i])
  }

  function LowerAll(words: seq<string>): (r: seq<string>)
    ensures |r| == |words| && forall i :: 0 <= i < |words| ==> r[i] == ToLower(words[i])
  {
    seq(|words|, i requires 0 <= i < |words| => ToLower(words[i]))
  }

  lemma ToLowerAppend(a: string, b: string)
    ensures ToLower(a + b) == ToLower(a) + ToLower(b)
  {
    assert ToLower(a + b) == ToLower(a) + ToLower(b) by {
      forall i | 0 <= i < |a| + |b| ensures ToLower(a + b)[i] == (ToLower(a) + ToLower(b))[i] {
        if i < |a| { assert (a + b)[i] == a[i]; } else { assert (a + b)[i] == b[i - |a|]; }
      }
    }
  }

  /** A prefix without whitespace passes through `HyphenateSpaces` unchanged. */
  lemma {:induction false} HyphenateSpacesAppend(a: string, b: string)
    requires NoSpace(a)
    ensures HyphenateSpaces(a + b) == a + HyphenateSpaces(b)
    decreases |a|
  {
    if a != [] {
      assert !IsSpace(a[0]);
      assert (a + b)[0] == a[0];
      assert (a + b)[1..] == a[1..] + b;
      assert HyphenateSpaces(a + b) == [a[0]] + HyphenateSpaces(a[1..] + b);
      assert NoSpace(a[1..]) by {
        forall i | 0 <= i < |a| - 1 ensures !IsSpace(a[1..][i]) {
          assert a[1..][i] == a[i + 1];
        }
      }
      HyphenateSpacesAppend(a[1..], b);
      assert a == [a[0]] + a[1..];
    } else {
      assert a + b == b;
    }
  }

  /** A lower-cased word: letters, digits and underscores, none upper-case. */
  predicate IsLowerWord(w: string) {
    w != [] && forall i :: 0 <= i < |w| ==> IsLower(w[i]) || IsDigit(w[i]) || w[i] == '_'
  }

  /** A join of words starts with the first word's first character and ends
      with the last word's last character. */
  lemma {:induction false} JoinStartsWithWord(words: seq<string>, sep: string)
    requires words != [] && forall i :: 0 <= i < |words| ==> words[i] != []
    ensures var j := Join(words, sep);
      j != [] && j[0] == words[0][0] && j[|j| - 1] == words[|words| - 1][|words[|words| - 1]| - 1]
    decreases |words|
  {
    if |words| > 1 {
      JoinStartsWithWord(words[1..], sep);
    }
  }

  /** Lower-case words joined by hyphens form a slug. */
  lemma {:induction false} JoinIsSlug(words: seq<string>)
    requires words != [] && forall i :: 0 <= i < |words| ==> IsLowerWord(words[i])
    ensures IsSlug(Join(words, "-"))
    decreases |words|
  {
    var w := words[0];
    assert IsLowerWord(w);
    if |words| > 1 {
      JoinIsSlug(words[1..]);
      var rest := Join(words[1..], "-");
      JoinStartsWithWord(words[1..], "-");
      assert IsLowerWord(words[1]);
      WordThenSlug(w, rest);
      assert Join(words, "-") == w + "-" + rest;
    } else {
      assert Join(words, "-") == w;
    }
  }

  /** A lower-case word, a hyphen and a slug that starts with no hyphen form a slug. */
  lemma WordThenSlug(w: string, rest: string)
    requires IsLowerWord(w) && IsSlug(rest) && rest != [] && rest[0] != '-'
    ensures IsSlug(w + "-" + rest)
  {
    var j := w + "-" + rest;
    forall i | 0 <= i < |j| ensures IsSlugChar(j[i]) {
      if i < |w| { assert j[i] == w[i]; }
      else if i > |w| { assert j[i] == rest[i - |w| - 1]; }
    }
    forall i | 0 <= i < |j| - 1 ensures !(j[i] == '-' && j[i + 1] == '-') {
      if i + 1 < |w| { assert j[i] == w[i] && j[i + 1] == w[i + 1]; }
      else if i + 1 == |w| { assert j[i] == w[i]; }
      else if i == |w| { assert j[i + 1] == rest[0]; }
      else { assert j[i] == rest[i - |w| - 1] && j[i + 1] == rest[i - |w|]; }
    }
    assert j[0] == w[0] && j[|j| - 1] == rest[|rest| - 1];
  }

  /** The words with the run `seps[i]` between `words[i]` and `words[i + 1]`. */
  function Spaced(words: seq<string>, seps: seq<string>): string
    requires words != [] && |seps| == |words| - 1
    decreases |words|
  {
    if |words| == 1 then words[0] else words[0] + seps[0] + Spaced(words[1..], seps[1..])
  }

  /** For words of letters, digits and underscores separated by runs of
      whitespace, with any whitespace at either end, `slugify` joins the
      lower-cased words with single hyphens. */
  lemma WordsBecomeHyphenated(words: seq<string>, seps: seq<string>, lead: string, trail: string)
    requires words != [] && forall i :: 0 <= i < |words| ==> IsWord(words[i])
    requires |seps| == |words| - 1 && forall i :: 0 <= i < |seps| ==> seps[i] != [] && AllSpace(seps[i])
    requires AllSpace(lead) && AllSpace(trail)
    ensures Slugify(lead + Spaced(words, seps) + trail) == Join(LowerAll(words), "-")
  {
    var lw := LowerAll(words);
    forall i | 0 <= i < |lw| ensures IsLowerWord(lw[i]) {
      LowerWord(words[i]);
    }
    LowerTrimSpaced(words, seps, lead, trail);
    HyphenateSpaced(lw, seps);
    JoinIsSlug(lw);
    SlugifyThrough(lead + Spaced(words, seps) + trail, Spaced(lw, seps), Join(lw, "-"));
  }

  /** Lower-casing and trimming keep the lower-cased words and the runs between
      them, and drop the whitespace at both ends. */
  lemma LowerTrimSpaced(words: seq<string>, seps: seq<string>, lead: string, trail: string)
    requires words != [] && forall i :: 0 <= i < |words| ==> IsLowerWord(ToLower(words[i]))
    requires |seps| == |words| - 1 && forall i :: 0 <= i < |seps| ==> AllSpace(seps[i])
    requires AllSpace(lead) && AllSpace(trail)
    ensures Trim(ToLower(lead + Spaced(words, seps) + trail)) == Spaced(LowerAll(words), seps)
  {
    var lw := LowerAll(words);
    forall i | 0 <= i < |seps| ensures ToLower(seps[i]) == seps[i] {
      LowerKeepsSpace(seps[i]);
    }
    ToLowerSpaced(words, seps);
    LowerSurround(lead, Spaced(words, seps), trail);
    SpacedEdges(lw, seps);
    TrimSurround(lead, Spaced(lw, seps), trail);
  }

  /** Lower-casing passes whitespace at either end through. */
  lemma LowerSurround(lead: string, x: string, trail: string)
    requires AllSpace(lead) && AllSpace(trail)
    ensures ToLower(lead + x + trail) == lead + ToLower(x) + trail
  {
    ToLowerAppend(lead + x, trail);
    ToLowerAppend(lead, x);
    LowerKeepsSpace(lead);
    LowerKeepsSpace(trail);
  }

  /** Trimming removes exactly the whitespace at either end of text whose
      first and last characters are not whitespace. */
  lemma TrimSurround(lead: string, y: string, trail: string)
    requires AllSpace(lead) && AllSpace(trail)
    requires y != [] && !IsSpace(y[0]) && !IsSpace(y[|y| - 1])
    ensures Trim(lead + y + trail) == y
  {
    assert lead + y + trail == lead + (y + trail);
    assert (y + trail)[0] == y[0];
    TrimStartSpaces(lead, y + trail);
    TrimEndSpaces(y, trail);
  }

  /** Lower-casing leaves whitespace as it is. */
  lemma LowerKeepsSpace(s: string)
    requires AllSpace(s)
    ensures ToLower(s) == s
  {
    forall i | 0 <= i < |s| ensures ToLower(s)[i] == s[i] {
      assert IsSpace(s[i]);
    }
  }

  /** Lower-casing words spaced by runs it leaves alone lower-cases the words. */
  lemma {:induction false} ToLowerSpaced(words: seq<string>, seps: seq<string>)
    requires words != [] && |seps| == |words| - 1 && forall i :: 0 <= i < |seps| ==> ToLower(seps[i]) == seps[i]
    ensures ToLower(Spaced(words, seps)) == Spaced(LowerAll(words), seps)
    decreases |words|
  {
    if |words| > 1 {
      ToLowerAppend(words[0] + seps[0], Spaced(words[1..], seps[1..]));
      ToLowerAppend(words[0], seps[0]);
      ToLowerSpaced(words[1..], seps[1..]);
      assert LowerAll(words)[1..] == LowerAll(words[1..]);
    }
  }

  /** Words spaced by whitespace start with the first word's first character
      and end with the last word's last character. */
  lemma {:induction false} SpacedEdges(words: seq<string>, seps: seq<string>)
    requires words != [] && |seps| == |words| - 1
    requires forall i :: 0 <= i < |words| ==> IsLowerWord(words[i])
    ensures var j := Spaced(words, seps);
      j != [] && IsLowerWord(words[0]) && j[0] == words[0][0] && !IsSpace(j[0]) && !IsSpace(j[|j| - 1])
    decreases |words|
  {
    assert IsLowerWord(words[0]) && IsLowerWord(words[|words| - 1]);
    if |words| > 1 {
      SpacedEdges(words[1..], seps[1..]);
    }
  }

  /** Leading whitespace before a non-space character is what `trimStart` removes. */
  lemma {:induction false} TrimStartSpaces(lead: string, y: string)
    requires AllSpace(lead) && y != [] && !IsSpace(y[0])
    ensures TrimStart(lead + y) == y
    decreases |lead|
  {
    if lead != [] {
      assert (lead + y)[0] == lead[0] && (lead + y)[1..] == lead[1..] + y;
      TrimStartSpaces(lead[1..], y);
    } else {
      assert lead + y == y;
    }
  }

  /** Trailing whitespace after a non-space character is what `trimEnd` removes. */
  lemma {:induction false} TrimEndSpaces(y: string, trail: string)
    requires AllSpace(trail) && y != [] && !IsSpace(y[|y| - 1])
    ensures TrimEnd(y + trail) == y
    decreases |trail|
  {
    var s := y + trail;
    if trail != [] {
      assert s[|s| - 1] == trail[|trail| - 1];
      assert s[..|s| - 1] == y + trail[..|trail| - 1];
      TrimEndSpaces(y, trail[..|trail| - 1]);
    } else {
      assert s == y;
    }
  }

  /** A run of whitespace before a non-space character becomes one hyphen. */
  lemma {:induction false} HyphenateRun(sep: string, rest: string)
    requires sep != [] && AllSpace(sep) && rest != [] && !IsSpace(rest[0])
    ensures HyphenateSpaces(sep + rest) == "-" + HyphenateSpaces(rest)
    decreases |sep|
  {
    var s := sep + rest;
    assert s[0] == sep[0] && s[1..] == sep[1..] + rest;
    if |sep| > 1 {
      assert s[1] == sep[1];
      HyphenateRun(sep[1..], rest);
    } else {
      assert s[1..] == rest;
    }
  }

  /** Lower-case words spaced by whitespace runs become the same words joined by hyphens. */
  lemma {:induction false} HyphenateSpaced(words: seq<string>, seps: seq<string>)
    requires words != [] && forall i :: 0 <= i < |words| ==> IsLowerWord(words[i])
    requires |seps| == |words| - 1 && forall i :: 0 <= i < |seps| ==> seps[i] != [] && AllSpace(seps[i])
    ensures HyphenateSpaces(Spaced(words, seps)) == Join(words, "-")
    decreases |words|
  {
    var w := words[0];
    assert NoSpace(w) by { assert IsLowerWord(w); }
    if |words| == 1 {
      HyphenateKeepsNoSpace(w);
    } else {
      var rest := Spaced(words[1..], seps[1..]);
      SpacedEdges(words[1..], seps[1..]);
      assert Spaced(words, seps) == w + (seps[0] + rest);
      HyphenateSpacesAppend(w, seps[0] + rest);
      HyphenateRun(seps[0], rest);
      HyphenateSpaced(words[1..], seps[1..]);
      assert Join(words, "-") == w + ("-" + Join(words[1..], "-"));
    }
  }

  /** When lower-casing and trimming give `spaced` and hyphenating it gives a
      slug, that slug is the result of `slugify`. */
  lemma SlugifyThrough(text: string, spaced: string, hyphened: string)
    requires Trim(ToLower(text)) == spaced
    requires HyphenateSpaces(spaced) == hyphened && IsSlug(hyphened)
    ensures Slugify(text) == hyphened
  {
    CleanKeepsSlug(hyphened);
  }

  predicate NoWordChar(s: string) {
    forall i :: 0 <= i < |s| ==> !IsWordChar(s[i])
  }

  /** What may stand between two words of a title: no letter, digit or
      underscore, and at least one whitespace character or hyphen, such as
      `: `, ` - `, `--` or `, `. */
  predicate IsSeparator(sep: string) {
    NoWordChar(sep) && exists i :: 0 <= i < |sep| && (IsSpace(sep[i]) || sep[i] == '-')
  }

  /** For words of letters, digits and underscores with a separator between
      each two (punctuation, hyphens and whitespace, at least one hyphen or
      whitespace character), `slugify` joins the lower-cased words with single
      hyphens: the punctuation is dropped and each separator becomes one hyphen. */
  lemma SlugifySeparated(words: seq<string>, seps: seq<string>)
    requires words != [] && forall i :: 0 <= i < |words| ==> IsWord(words[i])
    requires |seps| == |words| - 1 && forall i :: 0 <= i < |seps| ==> IsSeparator(seps[i])
    ensures Slugify(Spaced(words, seps)) == Join(LowerAll(words), "-")
  {
    var lw := LowerAll(words);
    forall i | 0 <= i < |lw| ensures IsLowerWord(lw[i]) {
      LowerWord(words[i]);
    }
    LowerTrimSeparated(words, seps);
    CleanHyphenated(lw, seps);
    SlugifyVia(Spaced(words, seps), Spaced(lw, seps), HyphenateSpaces(Spaced(lw, seps)), Join(lw, "-"));
  }

  /** Lower-case words spaced by separators, hyphenated and cleaned, are the
      words joined by single hyphens. */
  lemma CleanHyphenated(words: seq<string>, seps: seq<string>)
    requires words != [] && forall i :: 0 <= i < |words| ==> IsLowerWord(words[i])
    requires |seps| == |words| - 1 && forall i :: 0 <= i < |seps| ==> IsSeparator(seps[i])
    ensures Clean(HyphenateSpaces(Spaced(words, seps))) == Join(words, "-")
  {
    var hs := seq(|seps|, i requires 0 <= i < |seps| => HyphenateSpaces(seps[i]));
    HyphenateSpacedSeps(words, seps, hs);
    forall i | 0 <= i < |hs| ensures NoWordChar(hs[i]) && '-' in hs[i] {
      HyphenateSeparator(seps[i]);
    }
    CleanSeparated(words, hs);
  }

  /** `slugify` composed step by step. */
  lemma SlugifyVia(text: string, y: string, h: string, j: string)
    requires Trim(ToLower(text)) == y && HyphenateSpaces(y) == h && Clean(h) == j
    ensures Slugify(text) == j
  {
  }

  /** Lower-casing and trimming words spaced by separators lower-cases the words. */
  lemma LowerTrimSeparated(words: seq<string>, seps: seq<string>)
    requires words != [] && forall i :: 0 <= i < |words| ==> IsLowerWord(ToLower(words[i]))
    requires |seps| == |words| - 1 && forall i :: 0 <= i < |seps| ==> IsSeparator(seps[i])
    ensures Trim(ToLower(Spaced(words, seps))) == Spaced(LowerAll(words), seps)
  {
    var lw := LowerAll(words);
    forall i | 0 <= i < |seps| ensures ToLower(seps[i]) == seps[i] {
      LowerKeepsNonWord(seps[i]);
    }
    ToLowerSpaced(words, seps);
    var y := Spaced(lw, seps);
    SpacedEdges(lw, seps);
    TrimSurround([], y, []);
    assert [] + y + [] == y;
  }

  /** Lower-casing leaves text without letters as it is. */
  lemma LowerKeepsNonWord(s: string)
    requires NoWordChar(s)
    ensures ToLower(s) == s
  {
    forall i | 0 <= i < |s| ensures ToLower(s)[i] == s[i] {
      assert !IsWordChar(s[i]);
    }
  }

  /** The hyphenation works on each piece of text alone unless a whitespace
      run spans the join. */
  lemma {:induction false} HyphenateAppend(a: string, b: string)
    requires a == [] || b == [] || !IsSpace(a[|a| - 1]) || !IsSpace(b[0])
    ensures HyphenateSpaces(a + b) == HyphenateSpaces(a) + HyphenateSpaces(b)
    decreases |a|
  {
    if a == [] {
      assert a + b == b;
    } else {
      var s := a + b;
      assert s[0] == a[0] && s[1..] == a[1..] + b;
      if |a| == 1 {
        assert a[1..] == [] && s[1..] == b;
      } else {
        assert s[1] == a[1];
        HyphenateAppend(a[1..], b);
      }
    }
  }

  /** Hyphenating lower-case words spaced by separators hyphenates each separator. */
  lemma {:induction false} HyphenateSpacedSeps(words: seq<string>, seps: seq<string>, hs: seq<string>)
    requires words != [] && forall i :: 0 <= i < |words| ==> IsLowerWord(words[i])
    requires |seps| == |words| - 1 && |hs| == |seps|
    requires forall i :: 0 <= i < |seps| ==> hs[i] == HyphenateSpaces(seps[i])
    ensures HyphenateSpaces(Spaced(words, seps)) == Spaced(words, hs)
    decreases |words|
  {
    var w := words[0];
    assert NoSpace(w) by { assert IsLowerWord(w); }
    if |words| == 1 {
      HyphenateKeepsNoSpace(w);
    } else {
      var rest := Spaced(words[1..], seps[1..]);
      SpacedEdges(words[1..], seps[1..]);
      HyphenateSpacedSeps(words[1..], seps[1..], hs[1..]);
      HyphenateWordThen(w, seps[0], rest);
      assert Spaced(words, seps) == w + seps[0] + rest;
      assert Spaced(words, hs) == w + hs[0] + Spaced(words[1..], hs[1..]);
    }
  }

  /** A word, a separator and text starting with a word character: the word
      is kept and the separator and the text are hyphenated on their own. */
  lemma HyphenateWordThen(w: string, sep: string, rest: string)
    requires NoSpace(w) && rest != [] && !IsSpace(rest[0])
    ensures HyphenateSpaces(w + sep + rest) == w + HyphenateSpaces(sep) + HyphenateSpaces(rest)
  {
    assert w + sep + rest == w + (sep + rest);
    HyphenateSpacesAppend(w, sep + rest);
    HyphenateAppend(sep, rest);
  }

  /** Hyphenating a separator brings in no word character and leaves at
      least one hyphen. */
  lemma {:induction false} HyphenateSeparator(s: string)
    requires IsSeparator(s)
    ensures NoWordChar(HyphenateSpaces(s)) && '-' in HyphenateSpaces(s)
    decreases |s|
  {
    var h := HyphenateSpaces(s);
    var t := HyphenateSpaces(s[1..]);
    var c := if IsSpace(s[0]) then '-' else s[0];
    assert NoWordChar(s[1..]) by {
      forall i | 0 <= i < |s| - 1 ensures !IsWordChar(s[1..][i]) {
        assert s[1..][i] == s[i + 1];
      }
    }
    if IsSpace(s[0]) && |s| > 1 && IsSpace(s[1]) {
      assert IsSpace(s[1..][0]);
      HyphenateSeparator(s[1..]);
    } else {
      if c == '-' {
        HyphenateNoWordChar(s[1..]);
      } else {
        var i :| 0 <= i < |s| && (IsSpace(s[i]) || s[i] == '-');
        assert s[1..][i - 1] == s[i];
        HyphenateSeparator(s[1..]);
      }
      assert h == [c] + t;
      forall i | 0 <= i < |h| ensures !IsWordChar(h[i]) {
        if i > 0 { assert h[i] == t[i - 1]; }
      }
    }
  }

  /** Hyphenating text without word characters brings none in. */
  lemma {:induction false} HyphenateNoWordChar(s: string)
    requires NoWordChar(s)
    ensures NoWordChar(HyphenateSpaces(s))
    decreases |s|
  {
    if s != [] {
      assert NoWordChar(s[1..]) by {
        forall i | 0 <= i < |s| - 1 ensures !IsWordChar(s[1..][i]) {
          assert s[1..][i] == s[i + 1];
        }
      }
      HyphenateNoWordChar(s[1..]);
      var t := HyphenateSpaces(s[1..]);
      var c := if IsSpace(s[0]) then '-' else s[0];
      forall i | 0 <= i < |[c] + t| ensures !IsWordChar(([c] + t)[i]) {
        if i > 0 { assert ([c] + t)[i] == t[i - 1]; }
      }
    }
  }

  /** What `.replace(/[^\w\-]+/g, '')` keeps of text without word characters
      is its hyphens; there is one when the text has one. */
  lemma {:induction false} DropSeparator(s: string)
    requires NoWordChar(s)
    ensures AllHyphens(DropNonWord(s)) && ('-' in s ==> DropNonWord(s) != [])
    decreases |s|
  {
    if s != [] {
      assert NoWordChar(s[1..]) by {
        forall i | 0 <= i < |s| - 1 ensures !IsWordChar(s[1..][i]) {
          assert s[1..][i] == s[i + 1];
        }
      }
      assert !IsWordChar(s[0]);
      DropSeparator(s[1..]);
      if s[0] != '-' {
        assert '-' in s ==> '-' in s[1..];
      }
    }
  }

  /** Dropping characters from lower-case words spaced by runs drops them
      from the runs alone. */
  lemma {:induction false} DropSpaced(words: seq<string>, seps: seq<string>, ds: seq<string>)
    requires words != [] && forall i :: 0 <= i < |words| ==> IsLowerWord(words[i])
    requires |seps| == |words| - 1 && |ds| == |seps|
    requires forall i :: 0 <= i < |seps| ==> ds[i] == DropNonWord(seps[i])
    ensures DropNonWord(Spaced(words, seps)) == Spaced(words, ds)
    decreases |words|
  {
    var w := words[0];
    assert AllSlugChars(w) by { assert IsLowerWord(w); }
    if |words| > 1 {
      var rest := Spaced(words[1..], seps[1..]);
      DropSpaced(words[1..], seps[1..], ds[1..]);
      DropWordThen(w, seps[0], rest);
      assert Spaced(words, seps) == w + seps[0] + rest;
      assert Spaced(words, ds) == w + ds[0] + Spaced(words[1..], ds[1..]);
    }
  }

  /** A slug word, then any two pieces: the word is kept and the pieces lose
      their other characters on their own. */
  lemma DropWordThen(w: string, sep: string, rest: string)
    requires AllSlugChars(w)
    ensures DropNonWord(w + sep + rest) == w + DropNonWord(sep) + DropNonWord(rest)
  {
    DropNonWordAppend(w + sep, rest);
    DropNonWordAppend(w, sep);
  }

  /** Lower-case words with a non-empty run of hyphens between each two are
      squeezed into the words joined by single hyphens. */
  lemma {:induction false} SqueezeSpaced(words: seq<string>, runs: seq<string>)
    requires words != [] && forall i :: 0 <= i < |words| ==> IsLowerWord(words[i])
    requires |runs| == |words| - 1
    requires forall i :: 0 <= i < |runs| ==> AllHyphens(runs[i]) && runs[i] != []
    ensures SqueezeHyphens(Spaced(words, runs)) == Join(words, "-")
    decreases |words|
  {
    var w := words[0];
    if |words| == 1 {
      SqueezeWord(w);
    } else {
      var rest := Spaced(words[1..], runs[1..]);
      SpacedEdges(words[1..], runs[1..]);
      assert IsLowerWord(words[1]);
      SqueezeSpaced(words[1..], runs[1..]);
      SqueezeWordThen(w, runs[0], rest);
      assert Spaced(words, runs) == w + runs[0] + rest;
      assert Join(words, "-") == w + ("-" + Join(words[1..], "-"));
    }
  }

  /** A lower-case word has no hyphen to squeeze. */
  lemma SqueezeWord(w: string)
    requires IsLowerWord(w)
    ensures SqueezeHyphens(w) == w
  {
    assert NoDoubleHyphen(w);
  }

  /** A word, a run of hyphens and text starting with something else: the run
      becomes one hyphen. */
  lemma SqueezeWordThen(w: string, run: string, rest: string)
    requires IsLowerWord(w) && AllHyphens(run) && run != []
    requires rest != [] && rest[0] != '-'
    ensures SqueezeHyphens(w + run + rest) == w + ("-" + SqueezeHyphens(rest))
  {
    var k := |run|;
    assert run == Hyphens(k);
    SqueezeWord(w);
    SqueezeHyphenRun(w, k, rest);
    assert w + run + rest == w + Hyphens(k) + rest;
    Append3(w, "-", SqueezeHyphens(rest));
  }

  /** The last four steps turn lower-case words spaced by hyphenated
      separators into the words joined by single hyphens. */
  lemma CleanSeparated(words: seq<string>, hs: seq<string>)
    requires words != [] && forall i :: 0 <= i < |words| ==> IsLowerWord(words[i])
    requires |hs| == |words| - 1 && forall i :: 0 <= i < |hs| ==> NoWordChar(hs[i]) && '-' in hs[i]
    ensures Clean(Spaced(words, hs)) == Join(words, "-")
  {
    var ds := seq(|hs|, i requires 0 <= i < |hs| => DropNonWord(hs[i]));
    forall i | 0 <= i < |ds| ensures AllHyphens(ds[i]) && ds[i] != [] {
      DropSeparator(hs[i]);
    }
    DropSpaced(words, hs, ds);
    SqueezeSpaced(words, ds);
    JoinIsSlug(words);
    CleanVia(Spaced(words, hs), Spaced(words, ds), Join(words, "-"));
  }

  /** The last four steps composed, for a squeezed result that is a slug. */
  lemma CleanVia(s: string, d: string, j: string)
    requires DropNonWord(s) == d && SqueezeHyphens(d) == j && IsSlug(j)
    ensures Clean(s) == j
  {
    assert TrimLeadingHyphens(j) == j;
    assert TrimTrailingHyphens(j) == j;
  }

  /** "Spider-Man: No Way Home" becomes "spider-man-no-way-home". */
  lemma SpiderManSlug()
    ensures Slugify("Spider-Man: No Way Home") == "spider-man-no-way-home"
  {
    var words := ["Spider", "Man", "No", "Way", "Home"];
    var seps := ["-", ": ", " ", " "];
    SpiderManParts(words, seps);
    SlugifySeparated(words, seps);
    SpiderManSpaced(words, seps);
    SpiderManJoined(words);
  }

  lemma SpiderManParts(words: seq<string>, seps: seq<string>)
    requires words == ["Spider", "Man", "No", "Way", "Home"] && seps == ["-", ": ", " ", " "]
    ensures forall i :: 0 <= i < |words| ==> IsWord(words[i])
    ensures forall i :: 0 <= i < |seps| ==> IsSeparator(seps[i])
  {
    assert IsSpace(seps[1][1]) && seps[0][0] == '-' && IsSpace(seps[2][0]) && IsSpace(seps[3][0]);
  }

  lemma SpiderManSpaced(words: seq<string>, seps: seq<string>)
    requires words == ["Spider", "Man", "No", "Way", "Home"] && seps == ["-", ": ", " ", " "]
    ensures Spaced(words, seps) == "Spider-Man: No Way Home"
  {
    SpacedFive("Spider", "Man", "No", "Way", "Home", "-", ": ", " ", " ");
  }

  lemma SpacedFive(a: string, b: string, c: string, d: string, e: string, p: string, q: string, r: string, t: string)
    ensures Spaced([a, b, c, d, e], [p, q, r, t]) == a + p + b + q + c + r + d + t + e
  {
    var ws := [a, b, c, d, e];
    var ss := [p, q, r, t];
    assert ws[1..] == [b, c, d, e] && ws[2..] == [c, d, e] && ws[3..] == [d, e] && ws[4..] == [e];
    assert ss[1..] == [q, r, t] && ss[2..] == [r, t] && ss[3..] == [t] && ss[4..] == [];
    assert Spaced(ws[3..], ss[3..]) == d + t + e;
    assert Spaced(ws[2..], ss[2..]) == c + r + (d + t + e);
    assert Spaced(ws, ss) == a + p + (b + q + (c + r + (d + t + e)));
  }

  lemma SpiderManJoined(words: seq<string>)
    requires words == ["Spider", "Man", "No", "Way", "Home"]
    ensures Join(LowerAll(words), "-") == "spider-man-no-way-home"
  {
    SpiderManLowered(words);
    JoinFive("spider", "man", "no", "way", "home", "-");
  }

  lemma JoinFive(a: string, b: string, c: string, d: string, e: string, sep: string)
    ensures Join([a, b, c, d, e], sep) == a + sep + b + sep + c + sep + d + sep + e
  {
    var ws := [a, b, c, d, e];
    assert ws[1..] == [b, c, d, e] && ws[2..] == [c, d, e] && ws[3..] == [d, e] && ws[4..] == [e];
    assert Join(ws[3..], sep) == d + sep + e;
    assert Join(ws[2..], sep) == c + sep + (d + sep + e);
    assert Join(ws, sep) == a + sep + (b + sep + (c + sep + (d + sep + e)));
  }

  lemma SpiderManLowered(words: seq<string>)
    requires words == ["Spider", "Man", "No", "Way", "Home"]
    ensures LowerAll(words) == ["spider", "man", "no", "way", "home"]
  {
    assert ToLower("Spider") == "spider";
    assert ToLower("Man") == "man";
    assert ToLower("No") == "no";
    assert ToLower("Way") == "way";
    assert ToLower("Home") == "home";
  }

  lemma LowerWord(w: string)
    requires IsWord(w)
    ensures IsLowerWord(ToLower(w))
  {
    var l := ToLower(w);
    forall k | 0 <= k < |l| ensures IsLower(l[k]) || IsDigit(l[k]) || l[k] == '_' {
      assert l[k] == LowerChar(w[k]);
    }
  }

  /** The decimal digits of a natural number, most significant first. */
  function Digits(n: nat): (r: string)
    ensures r != [] && forall i :: 0 <= i < |r| ==> IsDigit(r[i])
  {
    if n < 10 then ['0' + n as char] else Digits(n / 10) + ['0' + (n % 10) as char]
  }

  /** A number in a template string: its decimal digits, after `-` when negative. */
  function NumberToString(n: int): string {
    if n < 0 then "-" + Digits(-n) else Digits(n)
  }

  /** `generateMovieSlug(title, releaseDate)`; `yearOf` stands for
      `new Date(releaseDate).getFullYear()`, `None` when that is `NaN` or throws. */
  function GenerateMovieSlug(title: string, releaseDate: Option<string>, yearOf: string -> Option<int>): (r: string)
    ensures StartsWith(r, Slugify(title))
  {
    WithYear(Slugify(title), releaseDate, yearOf)
  }

  /** The year, when a non-empty release date yields one, appended to `base`
      after a hyphen. */
  function WithYear(base: string, releaseDate: Option<string>, yearOf: string -> Option<int>): (r: string)
    ensures StartsWith(r, base)
    ensures r == base <==> !HasYear(releaseDate, yearOf)
    ensures HasYear(releaseDate, yearOf) ==> r[|base|..] == "-" + NumberToString(yearOf(releaseDate.value).value)
  {
    if HasYear(releaseDate, yearOf) then
      var suffix := "-" + NumberToString(yearOf(releaseDate.value).value);
      PrefixOfAppend(base, suffix);
      assert (base + suffix)[|base|..] == suffix;
      base + suffix
    else base
  }

  /** A release date is given, is not empty, and a year can be read from it. */
  predicate HasYear(releaseDate: Option<string>, yearOf: string -> Option<int>) {
    releaseDate.Some? && releaseDate.value != [] && yearOf(releaseDate.value).Some?
  }

  /** The title's slug is the movie slug exactly when no year can be read from
      the release date; otherwise the slug goes on with `-` and the year. */
  lemma MovieSlugYear(title: string, releaseDate: Option<string>, yearOf: string -> Option<int>)
    ensures GenerateMovieSlug(title, releaseDate, yearOf) == Slugify(title) <==> !HasYear(releaseDate, yearOf)
    ensures HasYear(releaseDate, yearOf) ==>
      GenerateMovieSlug(title, releaseDate, yearOf)[|Slugify(title)|..] == "-" + NumberToString(yearOf(releaseDate.value).value)
  {
    var base := Slugify(title);
    assert GenerateMovieSlug(title, releaseDate, yearOf) == WithYear(base, releaseDate, yearOf);
  }

  /** A title whose slug is empty (no letter, digit or `_` in it) still gets
      the year appended, so the movie slug begins with a hyphen and is not a
      well-formed slug. */
  lemma EmptyTitleLeadingHyphen(title: string, releaseDate: Option<string>, yearOf: string -> Option<int>)
    requires Slugify(title) == [] && HasYear(releaseDate, yearOf)
    ensures var r := GenerateMovieSlug(title, releaseDate, yearOf);
      r == "-" + NumberToString(yearOf(releaseDate.value).value) && r[0] == '-' && !IsSlug(r)
  {
    MovieSlugYear(title, releaseDate, yearOf);
  }

  /** The empty title released in 2020 gets the slug `-2020`. */
  lemma EmptyTitleIn2020(releaseDate: string, yearOf: string -> Option<int>)
    requires releaseDate != [] && yearOf(releaseDate) == Some(2020)
    ensures GenerateMovieSlug("", Some(releaseDate), yearOf) == "-" + "2020"
  {
    SlugifyEmpty();
    EmptyTitleLeadingHyphen("", Some(releaseDate), yearOf);
    Digits2020();
    assert yearOf(Some(releaseDate).value).value == 2020;
  }

  lemma SlugifyEmpty()
    ensures Slugify("") == []
  {
    assert ToLower("") == [];
    assert Trim("") == [];
    assert HyphenateSpaces("") == [];
  }

  lemma Digits2020()
    ensures NumberToString(2020) == "2020"
  {
    assert Digits(2) == "2";
    assert Digits(20) == "20";
    assert Digits(202) == "202";
  }


  /** With a non-empty base slug and a year that is not negative, the base
      with the year appended is a slug. */
  lemma WithYearIsSlug(base: string, releaseDate: Option<string>, yearOf: string -> Option<int>)
    requires IsSlug(base) && base != []
    requires HasYear(releaseDate, yearOf) ==> yearOf(releaseDate.value).value >= 0
    ensures IsSlug(WithYear(base, releaseDate, yearOf))
  {
    if HasYear(releaseDate, yearOf) {
      AppendDigitsIsSlug(base, Digits(yearOf(releaseDate.value).value));
      assert WithYear(base, releaseDate, yearOf) == base + "-" + Digits(yearOf(releaseDate.value).value);
    }
  }

  /** With a non-empty title slug and a year that is not negative, the movie
      slug is itself a slug, and `slugify` leaves it unchanged. */
  lemma MovieSlugIsSlug(title: string, releaseDate: Option<string>, yearOf: string -> Option<int>)
    requires Slugify(title) != []
    requires HasYear(releaseDate, yearOf) ==> yearOf(releaseDate.value).value >= 0
    ensures IsSlug(GenerateMovieSlug(title, releaseDate, yearOf))
    ensures Slugify(GenerateMovieSlug(title, releaseDate, yearOf)) == GenerateMovieSlug(title, releaseDate, yearOf)
  {
    var r := GenerateMovieSlug(title, releaseDate, yearOf);
    WithYearIsSlug(Slugify(title), releaseDate, yearOf);
    SlugIsFixedPoint(r);
  }

  /** A slug, a hyphen and a run of digits form a slug. */
  lemma AppendDigitsIsSlug(base: string, d: string)
    requires IsSlug(base) && base != []
    requires d != [] && forall i :: 0 <= i < |d| ==> IsDigit(d[i])
    ensures IsSlug(base + "-" + d)
  {
    var r := base + "-" + d;
    forall i | 0 <= i < |r| ensures IsSlugChar(r[i]) {
      if i < |base| { assert r[i] == base[i]; }
      else if i > |base| { assert r[i] == d[i - |base| - 1]; }
    }
    forall i | 0 <= i < |r| - 1 ensures !(r[i] == '-' && r[i + 1] == '-') {
      if i + 1 < |base| { assert r[i] == base[i] && r[i + 1] == base[i + 1]; }
      else if i + 1 == |base| { assert r[i] == base[i]; }
      else if i == |base| { assert r[i + 1] == d[0]; }
      else { assert r[i + 1] == d[i - |base|]; }
    }
  }
}
