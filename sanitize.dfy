/**
 * The input sanitiser of lib/sanitize/index.ts: strip tags, decode five HTML
 * entities once, strip tags again, drop `javascript:` and `on...=` attribute
 * openings (each in a single left-to-right pass), trim.
 */
module Sanitize {
  import opened Text

  /** No `<` is followed, anywhere later, by a `>`: no tag can be read in the
      text. Written one character at a time; `NoTagMeans` states it over pairs
      of positions. */
  predicate NoTag(s: string)
    decreases |s|
  {
    s == [] || if s[0] == '<' then '>' !in s[1..] else NoTag(s[1..])
  }

  /** The definition above is the pairwise reading. */
  lemma {:induction false} NoTagMeans(s: string)
    ensures NoTag(s) <==> forall i, j :: 0 <= i < j < |s| ==> !(s[i] == '<' && s[j] == '>')
    decreases |s|
  {
    if s != [] {
      var t := s[1..];
      NoTagMeans(t);
      assert forall i :: 0 < i < |s| ==> s[i] == t[i - 1];
      if s[0] == '<' && '>' in t {
        var j :| 0 <= j < |t| && t[j] == '>';
        assert s[0] == '<' && s[j + 1] == '>';
      }
      if s[0] != '<' && !NoTag(t) {
        var i, j :| 0 <= i < j < |t| && t[i] == '<' && t[j] == '>';
        assert s[i + 1] == '<' && s[j + 1] == '>';
      }
    }
  }

  /** `.replace(/<[^>]*>/g, '')`: from each `<` that has a `>` after it, up to
      and including the first such `>`, the text is removed; a `<` without a
      later `>` is kept. */
  function StripTags(s: string): (r: string)
    ensures |r| <= |s|
    ensures '>' in r ==> '>' in s
    ensures NoTag(r)
    decreases |s|
  {
    if s == [] then []
    else if s[0] == '<' && '>' in s[1..] then
      StripTags(s[1..][IndexOf(s[1..], '>') + 1..])
    else
      var rest := StripTags(s[1..]);
      assert s[0] == '<' ==> '>' !in rest;
      [s[0]] + rest
  }

  /** The entity decoding: `&lt;`, `&gt;`, `&quot;`, `&#x27;` and, last, `&amp;`,
      each replaced everywhere in one pass. */
  function DecodeEntities(s: string): (r: string)
    ensures |r| <= |s|
  {
    var s1 := ReplaceAll(s, "&lt;", "<");
    var s2 := ReplaceAll(s1, "&gt;", ">");
    var s3 := ReplaceAll(s2, "&quot;", "\"");
    var s4 := ReplaceAll(s3, "&#x27;", "'");
    ReplaceAll(s4, "&amp;", "&")
  }

  const Javascript := "javascript:"

  /** `javascript:`, in any case, starts `s`. */
  predicate JavascriptAt(s: string) {
    |s| >= |Javascript| && ToLower(s[..|Javascript|]) == Javascript
  }

  /** `.replace(/javascript:/gi, '')`: every non-overlapping occurrence, in any
      case, found left to right, is removed; what the removal joins together
      is not looked at again. */
  function RemoveJavascript(s: string): (r: string)
    ensures |r| <= |s|
    ensures '>' in r ==> '>' in s
    ensures NoTag(s) ==> NoTag(r)
    decreases |s|
  {
    if JavascriptAt(s) then
      var rest := RemoveJavascript(s[|Javascript|..]);
      NoTagSuffix(s, |Javascript|);
      rest
    else if s == [] then []
    else
      var rest := RemoveJavascript(s[1..]);
      NoTagSuffix(s, 1);
      assert s[0] == '<' && NoTag(s) ==> '>' !in s[1..];
      [s[0]] + rest
  }

  /** The number of word characters `s` starts with. */
  function WordRun(s: string): (n: nat)
    ensures n <= |s|
    ensures forall i :: 0 <= i < n ==> IsWordChar(s[i])
    ensures n < |s| ==> !IsWordChar(s[n])
  {
    if s != [] && IsWordChar(s[0]) then 1 + WordRun(s[1..]) else 0
  }

  /** The number of whitespace characters `s` starts with. */
  function SpaceRun(s: string): (n: nat)
    ensures n <= |s|
    ensures forall i :: 0 <= i < n ==> IsSpace(s[i])
    ensures n < |s| ==> !IsSpace(s[n])
  {
    if s != [] && IsSpace(s[0]) then 1 + SpaceRun(s[1..]) else 0
  }

  /** The length of the match of `/on\w+\s*=/i` at the start of `s`, or 0 when
      it does not match there. `\w+` and `\s*` are greedy, and giving characters
      back cannot help: the character before `=` would then be a word character. */
  function HandlerMatch(s: string): (n: nat)
    ensures n <= |s|
    ensures n > 0 ==> n >= 4 && LowerChar(s[0]) == 'o' && LowerChar(s[1]) == 'n' && s[n - 1] == '='
    ensures n > 0 ==> var w := WordRun(s[2..]);
      w >= 1 && 2 + w < n && forall i :: 2 + w <= i < n - 1 ==> IsSpace(s[i])
  {
    if |s| >= 2 && LowerChar(s[0]) == 'o' && LowerChar(s[1]) == 'n' then
      var w := WordRun(s[2..]);
      var sp := SpaceRun(s[2 + w..]);
      if w >= 1 && 2 + w + sp < |s| && s[2 + w + sp] == '=' then 2 + w + sp + 1 else 0
    else 0
  }

  /** `.replace(/on\w+\s*=/gi, '')`: every match, found left to right, is removed. */
  function RemoveEventHandlers(s: string): (r: string)
    ensures |r| <= |s|
    ensures '>' in r ==> '>' in s
    ensures NoTag(s) ==> NoTag(r)
    decreases |s|
  {
    if s == [] then []
    else if HandlerMatch(s) > 0 then
      var n := HandlerMatch(s);
      var rest := RemoveEventHandlers(s[n..]);
      NoTagSuffix(s, n);
      rest
    else
      var rest := RemoveEventHandlers(s[1..]);
      NoTagSuffix(s, 1);
      assert s[0] == '<' && NoTag(s) ==> '>' !in s[1..];
      [s[0]] + rest
  }

  lemma NoTagSuffix(s: string, k: nat)
    requires k <= |s|
    ensures NoTag(s) ==> NoTag(s[k..])
    ensures '>' in s[k..] ==> '>' in s
  {
    NoTagMeans(s);
    NoTagMeans(s[k..]);
    if NoTag(s) {
      forall i, j | 0 <= i < j < |s| - k ensures !(s[k..][i] == '<' && s[k..][j] == '>') {
        assert s[k..][i] == s[k + i] && s[k..][j] == s[k + j];
      }
    }
  }

  /** Trimming keeps a text free of tags. */
  lemma TrimKeepsNoTag(s: string)
    requires NoTag(s)
    ensures NoTag(Trim(s))
  {
    TrimStartKeepsNoTag(s);
    TrimEndKeepsNoTag(TrimStart(s));
  }

  lemma {:induction false} TrimStartKeepsNoTag(s: string)
    requires NoTag(s)
    ensures NoTag(TrimStart(s))
    decreases |s|
  {
    if s != [] && IsSpace(s[0]) {
      NoTagSuffix(s, 1);
      TrimStartKeepsNoTag(s[1..]);
    }
  }

  lemma TrimEndKeepsNoTag(s: string)
    requires NoTag(s)
    ensures NoTag(TrimEnd(s))
  {
    var b := TrimEnd(s);
    NoTagMeans(s);
    NoTagMeans(b);
    forall i, j | 0 <= i < j < |b| ensures !(b[i] == '<' && b[j] == '>') {
      assert b[i] == s[i] && b[j] == s[j];
    }
  }

  /** `sanitizeInput(input)`. */
  function SanitizeInput(input: string): (r: string)
    ensures |r| <= |input|
    ensures r == [] || (!IsSpace(r[0]) && !IsSpace(r[|r| - 1]))
    ensures NoTag(r)
  {
    if input == [] then []
    else
      var removed := RemoveEventHandlers(RemoveJavascript(StripTags(DecodeEntities(StripTags(input)))));
      TrimKeepsNoTag(removed);
      Trim(removed)
  }

  /** `sanitizeWithFormatting(input)`: the same sanitisation. */
  function SanitizeWithFormatting(input: string): (r: string)
    ensures r == SanitizeInput(input)
    ensures |r| <= |input| && NoTag(r)
  {
    SanitizeInput(input)
  }

  /** Text without `<` passes the tag strip unchanged. */
  lemma {:induction false} StripTagsKeepsPlain(s: string)
    requires '<' !in s
    ensures StripTags(s) == s
    decreases |s|
  {
    if s != [] {
      StripTagsKeepsPlain(s[1..]);
      assert s == [s[0]] + s[1..];
    }
  }

  /** Text without `&` passes the entity decoding unchanged. */
  lemma DecodeKeepsPlain(s: string)
    requires '&' !in s
    ensures DecodeEntities(s) == s
  {
    ReplaceAllAbsent(s, "&lt;", "<");
    ReplaceAllAbsent(s, "&gt;", ">");
    ReplaceAllAbsent(s, "&quot;", "\"");
    ReplaceAllAbsent(s, "&#x27;", "'");
    ReplaceAllAbsent(s, "&amp;", "&");
  }

  lemma {:induction false} ReplaceAllAbsent(s: string, pat: string, rep: string)
    requires pat != [] && pat[0] !in s
    ensures ReplaceAll(s, pat, rep) == s
    decreases |s|
  {
    if |s| >= |pat| {
      assert s[..|pat|][0] == s[0] != pat[0];
      ReplaceAllAbsent(s[1..], pat, rep);
      assert s == [s[0]] + s[1..];
    }
  }

  /** Text whose only `pat[0]` is its first character, where `pat` does not
      start, passes the replacement unchanged. */
  lemma ReplaceAllOnlyFirst(s: string, pat: string, rep: string)
    requires pat != [] && s != [] && pat[0] !in s[1..]
    requires !(|s| >= |pat| && s[..|pat|] == pat)
    ensures ReplaceAll(s, pat, rep) == s
  {
    ReplaceAllAbsent(s[1..], pat, rep);
    assert s == [s[0]] + s[1..];
  }

  /** Text without `j` or `J` passes the `javascript:` removal unchanged. */
  lemma {:induction false} RemoveJavascriptKeepsPlain(s: string)
    requires 'j' !in s && 'J' !in s
    ensures RemoveJavascript(s) == s
    decreases |s|
  {
    if s != [] {
      assert s[0] in s;
      RemoveJavascriptKeeps(s, 0);
      RemoveJavascriptKeepsPlain(s[1..]);
      assert s == [s[0]] + s[1..];
    }
  }

  /** Text without `o` or `O` passes the `on...=` removal unchanged. */
  lemma {:induction false} RemoveEventHandlersKeepsPlain(s: string)
    requires 'o' !in s && 'O' !in s
    ensures RemoveEventHandlers(s) == s
    decreases |s|
  {
    if s != [] {
      assert LowerChar(s[0]) != 'o';
      assert HandlerMatch(s) == 0;
      RemoveEventHandlersKeepsPlain(s[1..]);
      assert s == [s[0]] + s[1..];
    }
  }

  /** Entities are decoded once, `&amp;` last: an escaped entity such as
      `&amp;lt;` keeps one level of escaping (`&lt;`) instead of becoming markup. */
  lemma DecodeEscaped(t: string)
    requires '&' !in t
    ensures DecodeEntities("&amp;" + t) == "&" + t
  {
    var s := "&amp;" + t;
    assert s[1..] == "amp;" + t;
    assert s[..5] == "&amp;" && s[5..] == t;
    assert '&' !in s[1..];
    if |s| >= 4 { assert s[..4] == "&amp"; }
    if |s| >= 6 { assert s[..6] == "&amp;" + [t[0]]; }
    ReplaceAllOnlyFirst(s, "&lt;", "<");
    ReplaceAllOnlyFirst(s, "&gt;", ">");
    ReplaceAllOnlyFirst(s, "&quot;", "\"");
    ReplaceAllOnlyFirst(s, "&#x27;", "'");
    ReplaceAllAbsent(t, "&amp;", "&");
    assert ReplaceAll(s, "&amp;", "&") == "&" + ReplaceAll(t, "&amp;", "&");
  }

  /** Through the whole sanitiser: `&amp;` followed by plain text that ends in
      a visible character comes out as `&` followed by that text. */
  lemma SanitizeEscaped(t: string)
    requires '&' !in t && '<' !in t
    requires 'j' !in t && 'J' !in t && 'o' !in t && 'O' !in t
    requires t != [] && !IsSpace(t[|t| - 1])
    ensures SanitizeInput("&amp;" + t) == "&" + t
  {
    var s := "&amp;" + t;
    assert '<' !in s by { assert s == "&amp;" + t; }
    StripTagsKeepsPlain(s);
    DecodeEscaped(t);
    LaterStepsKeepPlain("&" + t);
  }

  /** Text without `<`, `j`, `J`, `o` or `O` and without whitespace at either
      end passes the steps after the decoding unchanged. */
  lemma LaterStepsKeepPlain(d: string)
    requires '<' !in d && 'j' !in d && 'J' !in d && 'o' !in d && 'O' !in d
    requires d != [] && !IsSpace(d[0]) && !IsSpace(d[|d| - 1])
    ensures Trim(RemoveEventHandlers(RemoveJavascript(StripTags(d)))) == d
  {
    StripTagsKeepsPlain(d);
    RemoveJavascriptKeepsPlain(d);
    RemoveEventHandlersKeepsPlain(d);
    TrimKeeps(d);
  }

  // ---------------------------------------------------------------------
  // What each step removes or decodes

  /** A tag, from `<` to the first `>` after it, is removed; the text before
      it, which holds no `<`, is kept as it is. */
  lemma StripTagsRemovesTag(a: string, m: string, b: string)
    requires '<' !in a && '>' !in m
    ensures StripTags(a + "<" + m + ">" + b) == a + StripTags(b)
  {
    var t := "<" + m + ">" + b;
    StripTagsLeadingTag(m, b);
    StripTagsKeepsPrefix(a, t);
    Regroup(a, m, b);
  }

  lemma Regroup(a: string, m: string, b: string)
    ensures a + "<" + m + ">" + b == a + ("<" + m + ">" + b)
  {
  }

  lemma StripTagsLeadingTag(m: string, b: string)
    requires '>' !in m
    ensures StripTags("<" + m + ">" + b) == StripTags(b)
  {
    var s := "<" + m + ">" + b;
    var t := m + ">" + b;
    assert s == "<" + t && s[1..] == t;
    assert t[|m|] == '>';
    assert '>' !in t[..|m|] by { assert t[..|m|] == m; }
    assert IndexOf(t, '>') == |m|;
    assert t[|m| + 1..] == b;
    assert s[0] == '<' && '>' in s[1..];
    var k := IndexOf(s[1..], '>');
    assert k == |m| && s[1..][k + 1..] == b;
    assert StripTags(s) == StripTags(s[1..][k + 1..]);
  }

  lemma {:induction false} StripTagsKeepsPrefix(a: string, t: string)
    requires '<' !in a
    ensures StripTags(a + t) == a + StripTags(t)
    decreases |a|
  {
    if a == [] {
      assert a + t == t;
    } else {
      var s := a + t;
      assert s[0] == a[0] && s[1..] == a[1..] + t;
      assert a[0] in a;
      assert StripTags(s) == [a[0]] + StripTags(a[1..] + t);
      StripTagsKeepsPrefix(a[1..], t);
      ConsSplit(a, StripTags(t));
    }
  }

  lemma ConsSplit(a: string, x: string)
    requires a != []
    ensures [a[0]] + (a[1..] + x) == a + x
  {
    assert a == [a[0]] + a[1..];
  }

  /** A `<` with no `>` anywhere after it is kept: text without `>` passes the
      tag strip unchanged. */
  lemma {:induction false} StripTagsKeepsUnclosed(s: string)
    requires '>' !in s
    ensures StripTags(s) == s
    decreases |s|
  {
    if s != [] {
      assert '>' !in s[1..];
      StripTagsKeepsUnclosed(s[1..]);
      assert s == [s[0]] + s[1..];
    }
  }

  /** Text before the first `pat[0]` passes the replacement unchanged. */
  lemma {:induction false} ReplaceAllKeepsPrefix(a: string, x: string, pat: string, rep: string)
    requires pat != [] && pat[0] !in a
    ensures ReplaceAll(a + x, pat, rep) == a + ReplaceAll(x, pat, rep)
    decreases |a|
  {
    if a == [] {
      assert a + x == x;
    } else {
      var s := a + x;
      assert s[0] == a[0] && s[1..] == a[1..] + x;
      assert a[0] in a;
      if |s| >= |pat| {
        assert s[..|pat|][0] == a[0];
      }
      ReplaceAllKeepsPrefix(a[1..], x, pat, rep);
      ConsSplit(a, ReplaceAll(x, pat, rep));
    }
  }

  /** Text without `&` in front passes the decoding unchanged. */
  lemma DecodeKeepsPrefix(a: string, x: string)
    requires '&' !in a
    ensures DecodeEntities(a + x) == a + DecodeEntities(x)
  {
    var x1 := ReplaceAll(x, "&lt;", "<");
    var x2 := ReplaceAll(x1, "&gt;", ">");
    var x3 := ReplaceAll(x2, "&quot;", "\"");
    var x4 := ReplaceAll(x3, "&#x27;", "'");
    ReplaceAllKeepsPrefix(a, x, "&lt;", "<");
    ReplaceAllKeepsPrefix(a, x1, "&gt;", ">");
    ReplaceAllKeepsPrefix(a, x2, "&quot;", "\"");
    ReplaceAllKeepsPrefix(a, x3, "&#x27;", "'");
    ReplaceAllKeepsPrefix(a, x4, "&amp;", "&");
  }

  /** `a + e + t` regrouped as `a + (e + t)`. */
  lemma Regroup3(a: string, e: string, t: string)
    ensures a + e + t == a + (e + t)
  {
  }

  /** An entity at the start of text that holds no other `&` is replaced. */
  lemma ReplaceLeading(pat: string, rep: string, t: string)
    requires pat != [] && pat[0] !in t
    ensures ReplaceAll(pat + t, pat, rep) == rep + t
  {
    assert (pat + t)[..|pat|] == pat && (pat + t)[|pat|..] == t;
    ReplaceAllAbsent(t, pat, rep);
  }

  /** `&lt;` is decoded to `<` wherever it stands in text with no other `&`. */
  lemma DecodeLt(a: string, t: string)
    requires '&' !in a && '&' !in t
    ensures DecodeEntities(a + "&lt;" + t) == a + "<" + t
  {
    LeadingLt(t);
    DecodeKeepsPrefix(a, "&lt;" + t);
    Regroup3(a, "&lt;", t);
    Regroup3(a, "<", t);
  }

  lemma LeadingLt(t: string)
    requires '&' !in t
    ensures DecodeEntities("&lt;" + t) == "<" + t
  {
    ReplaceLeading("&lt;", "<", t);
    DecodeKeepsPlainAfter("<" + t);
  }

  /** `&gt;` is decoded to `>` wherever it stands in text with no other `&`. */
  lemma DecodeGt(a: string, t: string)
    requires '&' !in a && '&' !in t
    ensures DecodeEntities(a + "&gt;" + t) == a + ">" + t
  {
    LeadingGt(t);
    DecodeKeepsPrefix(a, "&gt;" + t);
    Regroup3(a, "&gt;", t);
    Regroup3(a, ">", t);
  }

  lemma LeadingGt(t: string)
    requires '&' !in t
    ensures DecodeEntities("&gt;" + t) == ">" + t
  {
    var s := "&gt;" + t;
    assert s[1..] == "gt;" + t && '&' !in s[1..];
    assert |s| >= 4 && s[..4] == "&gt;";
    ReplaceAllOnlyFirst(s, "&lt;", "<");
    ReplaceLeading("&gt;", ">", t);
    var d := ">" + t;
    ReplaceAllAbsent(d, "&quot;", "\"");
    ReplaceAllAbsent(d, "&#x27;", "'");
    ReplaceAllAbsent(d, "&amp;", "&");
  }

  /** `&quot;` is decoded to `"` wherever it stands in text with no other `&`. */
  lemma DecodeQuot(a: string, t: string)
    requires '&' !in a && '&' !in t
    ensures DecodeEntities(a + "&quot;" + t) == a + "\"" + t
  {
    LeadingQuot(t);
    DecodeKeepsPrefix(a, "&quot;" + t);
    Regroup3(a, "&quot;", t);
    Regroup3(a, "\"", t);
  }

  lemma LeadingQuot(t: string)
    requires '&' !in t
    ensures DecodeEntities("&quot;" + t) == "\"" + t
  {
    var s := "&quot;" + t;
    assert s[1..] == "quot;" + t && '&' !in s[1..];
    assert |s| >= 6 && s[..4] == "&quo";
    ReplaceAllOnlyFirst(s, "&lt;", "<");
    ReplaceAllOnlyFirst(s, "&gt;", ">");
    ReplaceLeading("&quot;", "\"", t);
    var d := "\"" + t;
    ReplaceAllAbsent(d, "&#x27;", "'");
    ReplaceAllAbsent(d, "&amp;", "&");
  }

  /** `&#x27;` is decoded to `'` wherever it stands in text with no other `&`. */
  lemma DecodeApos(a: string, t: string)
    requires '&' !in a && '&' !in t
    ensures DecodeEntities(a + "&#x27;" + t) == a + "'" + t
  {
    LeadingApos(t);
    DecodeKeepsPrefix(a, "&#x27;" + t);
    Regroup3(a, "&#x27;", t);
    Regroup3(a, "'", t);
  }

  lemma LeadingApos(t: string)
    requires '&' !in t
    ensures DecodeEntities("&#x27;" + t) == "'" + t
  {
    var s := "&#x27;" + t;
    assert s[1..] == "#x27;" + t && '&' !in s[1..];
    assert |s| >= 6 && s[..4] == "&#x2" && s[..6] == "&#x27;";
    ReplaceAllOnlyFirst(s, "&lt;", "<");
    ReplaceAllOnlyFirst(s, "&gt;", ">");
    ReplaceAllOnlyFirst(s, "&quot;", "\"");
    ReplaceLeading("&#x27;", "'", t);
    var d := "'" + t;
    ReplaceAllAbsent(d, "&amp;", "&");
  }

  /** The decoding steps after the first leave text without `&` unchanged. */
  lemma DecodeKeepsPlainAfter(d: string)
    requires '&' !in d
    ensures ReplaceAll(ReplaceAll(ReplaceAll(ReplaceAll(d, "&gt;", ">"), "&quot;", "\""), "&#x27;", "'"), "&amp;", "&") == d
  {
    ReplaceAllAbsent(d, "&gt;", ">");
    ReplaceAllAbsent(d, "&quot;", "\"");
    ReplaceAllAbsent(d, "&#x27;", "'");
    ReplaceAllAbsent(d, "&amp;", "&");
  }

  /** An occurrence of `javascript:`, in any case, at the start is removed and
      the search goes on after it. */
  lemma RemoveJavascriptDrops(p: string, t: string)
    requires ToLower(p) == Javascript
    ensures RemoveJavascript(p + t) == RemoveJavascript(t)
  {
    assert (p + t)[..|Javascript|] == p && (p + t)[|Javascript|..] == t;
    assert JavascriptAt(p + t);
  }

  /** A character that does not start `javascript:` is kept. */
  lemma RemoveJavascriptKeeps(s: string, k: nat)
    requires 0 < |s| && k < |Javascript|
    requires |s| < |Javascript| || LowerChar(s[k]) != Javascript[k]
    ensures RemoveJavascript(s) == [s[0]] + RemoveJavascript(s[1..])
  {
    NotJavascriptAt(s, k);
  }

  /** One character that differs from `javascript:` rules out a match. */
  lemma NotJavascriptAt(s: string, k: nat)
    requires k < |Javascript|
    requires |s| < |Javascript| || LowerChar(s[k]) != Javascript[k]
    ensures !JavascriptAt(s)
  {
    if |s| >= |Javascript| {
      var head := ToLower(s[..|Javascript|]);
      assert head[k] == LowerChar(s[k]) != Javascript[k];
    }
  }

  /** The removal is a single pass: removing the inner `javascript:` of
      `javajavascript:script:` joins its two halves into a new one. */
  lemma JavascriptReassembles()
    ensures RemoveJavascript("java" + "javascript:" + "script:") == "java" + "script:" == Javascript
  {
    JavascriptTail();
    KeepJava("javascript:" + "script:");
    Append3("java", "javascript:", "script:");
    JavaScriptSpelt();
  }

  lemma JavaScriptSpelt()
    ensures "java" + "script:" == Javascript
  {
  }

  /** `java` followed by a `j` is kept: no match starts in it. */
  lemma KeepJava(tail: string)
    requires tail != [] && tail[0] == 'j'
    ensures RemoveJavascript("java" + tail) == "java" + RemoveJavascript(tail)
  {
    var s := "java" + tail;
    assert s[1] == 'a' && s[2] == 'v' && s[3] == 'a' && s[4] == 'j';
    KeepFour(s);
    assert s[..4] == "java" && s[4..] == tail;
  }

  /** Four characters at none of which a match can start are kept: the last
      three are not `j` and the character after them is not `s`. */
  lemma KeepFour(s: string)
    requires |s| > 4
    requires LowerChar(s[1]) != 'j' && LowerChar(s[2]) != 'j' && LowerChar(s[3]) != 'j' && LowerChar(s[4]) != 's'
    ensures RemoveJavascript(s) == s[..4] + RemoveJavascript(s[4..])
  {
    var s1, s2, s3, s4 := s[1..], s[2..], s[3..], s[4..];
    assert s1[1..] == s2 && s2[1..] == s3 && s3[1..] == s4;
    KeepStep(s3, 0);
    KeepStep(s2, 0);
    KeepStep(s1, 0);
    KeepStep(s, 4);
    ConsFour(s[0], s[1], s[2], s[3], RemoveJavascript(s4));
    assert s[..4] == [s[0], s[1], s[2], s[3]];
  }

  lemma ConsFour(a: char, b: char, c: char, d: char, t: string)
    ensures [a] + ([b] + ([c] + ([d] + t))) == [a, b, c, d] + t
  {
  }

  /** `RemoveJavascriptKeeps` with the character of `javascript:` it differs from spelt out. */
  lemma KeepStep(s: string, k: nat)
    requires 0 < |s| && (k == 0 || k == 4) && k < |s|
    requires LowerChar(s[k]) != (if k == 0 then 'j' else 's')
    ensures RemoveJavascript(s) == [s[0]] + RemoveJavascript(s[1..])
  {
    RemoveJavascriptKeeps(s, k);
  }

  lemma JavascriptTail()
    ensures RemoveJavascript("javascript:" + "script:") == "script:"
  {
    RemoveJavascriptDrops("javascript:", "script:");
    NoJInScript();
    RemoveJavascriptKeepsPlain("script:");
  }

  lemma NoJInScript()
    ensures 'j' !in "script:" && 'J' !in "script:"
  {
    var w := "script:";
    assert forall i :: 0 <= i < |w| ==> w[i] != 'j' && w[i] != 'J';
  }

  /** Text that starts with word characters and then a character that is not
      one has a word run of exactly their number. */
  lemma {:induction false} WordRunOf(w: string, rest: string)
    requires forall i :: 0 <= i < |w| ==> IsWordChar(w[i])
    requires rest == [] || !IsWordChar(rest[0])
    ensures WordRun(w + rest) == |w|
    decreases |w|
  {
    if w != [] {
      assert (w + rest)[0] == w[0] && (w + rest)[1..] == w[1..] + rest;
      WordRunOf(w[1..], rest);
    } else {
      assert w + rest == rest;
    }
  }

  /** Likewise for whitespace. */
  lemma {:induction false} SpaceRunOf(sp: string, rest: string)
    requires forall i :: 0 <= i < |sp| ==> IsSpace(sp[i])
    requires rest == [] || !IsSpace(rest[0])
    ensures SpaceRun(sp + rest) == |sp|
    decreases |sp|
  {
    if sp != [] {
      assert (sp + rest)[0] == sp[0] && (sp + rest)[1..] == sp[1..] + rest;
      SpaceRunOf(sp[1..], rest);
    } else {
      assert sp + rest == rest;
    }
  }

  /** `on`, in any case, a non-empty run of word characters, optional
      whitespace and `=` at the start are matched, all of them. */
  lemma HandlerMatchFinds(on: string, w: string, sp: string, t: string)
    requires |on| == 2 && LowerChar(on[0]) == 'o' && LowerChar(on[1]) == 'n'
    requires w != [] && forall i :: 0 <= i < |w| ==> IsWordChar(w[i])
    requires forall i :: 0 <= i < |sp| ==> IsSpace(sp[i])
    ensures HandlerMatch(on + w + sp + "=" + t) == 2 + |w| + |sp| + 1
  {
    var s := on + w + sp + "=" + t;
    assert s[2..] == w + (sp + "=" + t);
    assert (sp + "=" + t)[0] == if sp == [] then '=' else sp[0];
    WordRunOf(w, sp + "=" + t);
    assert s[2 + |w|..] == sp + ("=" + t);
    SpaceRunOf(sp, "=" + t);
    assert s[2 + |w| + |sp|] == '=';
  }

  /** An `on...=` attribute opening at the start is removed and the search
      goes on after it. */
  lemma RemoveEventHandlersDrops(on: string, w: string, sp: string, t: string)
    requires |on| == 2 && LowerChar(on[0]) == 'o' && LowerChar(on[1]) == 'n'
    requires w != [] && forall i :: 0 <= i < |w| ==> IsWordChar(w[i])
    requires forall i :: 0 <= i < |sp| ==> IsSpace(sp[i])
    ensures RemoveEventHandlers(on + w + sp + "=" + t) == RemoveEventHandlers(t)
  {
    var s := on + w + sp + "=" + t;
    HandlerMatchFinds(on, w, sp, t);
    assert s[2 + |w| + |sp| + 1..] == t;
  }

  /** A character where no `on...=` match starts is kept and the search goes
      on after it. */
  lemma RemoveEventHandlersKeeps(s: string)
    requires s != [] && HandlerMatch(s) == 0
    ensures RemoveEventHandlers(s) == [s[0]] + RemoveEventHandlers(s[1..])
  {
  }

  /** A text that is not `on`, in any case, at its start has no match there. */
  lemma NoHandlerAt(s: string)
    requires |s| < 2 || LowerChar(s[0]) != 'o' || LowerChar(s[1]) != 'n'
    ensures HandlerMatch(s) == 0
  {
  }

  /** `onClick = x` loses its attribute opening. */
  lemma OnclickRemoved()
    ensures RemoveEventHandlers("on" + "Click" + " " + "=" + "x") == "x"
  {
    RemoveEventHandlersDrops("on", "Click", " ", "x");
    RemoveEventHandlersKeepsPlain("x");
  }
}
