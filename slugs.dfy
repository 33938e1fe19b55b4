/**
 * The slug generator of the organizations service and the defaults that
 * `create` applies before calling the identity library.
 *
 * `generateSlug` is the chain
 *   toLowerCase()  .replace(/[^\w\s-]/g, '')  .replace(/\s+/g, '-')
 *   .replace(/-+/g, '-')  .trim()
 * and each step is one function below, over ASCII.
 */
module Slugs {
  import opened Wrappers
  import opened Sequences

  // ---------------------------------------------------------------------
  // Character classes

  predicate IsUpper(c: char) { 'A' <= c <= 'Z' }

  /** `\w`: ASCII letters, digits and the underscore. */
  predicate IsWordChar(c: char)
  {
    'a' <= c <= 'z' || 'A' <= c <= 'Z' || '0' <= c <= '9' || c == '_'
  }

  /** The ASCII members of `\s`: tab, line feed, vertical tab, form feed, carriage return, space. */
  predicate IsSpace(c: char)
  {
    c == ' ' || 9 <= c as int <= 13
  }

  predicate IsHyphen(c: char) { c == '-' }

  /** The characters a generated slug may contain: `[a-z0-9_-]`. */
  predicate IsSlugChar(c: char)
  {
    'a' <= c <= 'z' || '0' <= c <= '9' || c == '_' || c == '-'
  }

  /** No two consecutive hyphens. */
  predicate NoDoubleHyphen(s: string)
  {
    forall i :: 0 <= i < |s| - 1 ==> !(s[i] == '-' && s[i + 1] == '-')
  }

  /** The shape every generated slug has. */
  predicate IsSlugForm(s: string)
  {
    (forall i :: 0 <= i < |s| ==> IsSlugChar(s[i])) && NoDoubleHyphen(s)
  }

  // ---------------------------------------------------------------------
  // The five steps

  function ToLower(c: char): (d: char)
    ensures !IsUpper(d)
    ensures !IsUpper(c) ==> d == c
  {
    if IsUpper(c) then (c as int - 'A' as int + 'a' as int) as char else c
  }

  /** `toLowerCase()`, on ASCII. */
  function Lower(s: string): (r: string)
    ensures |r| == |s|
    ensures forall i :: 0 <= i < |s| ==> r[i] == ToLower(s[i])
  {
    if s == [] then [] else [ToLower(s[0])] + Lower(s[1..])
  }

  /** The characters that `/[^\w\s-]/g` does not remove. */
  predicate Kept(c: char)
  {
    IsWordChar(c) || IsSpace(c) || IsHyphen(c)
  }

  /** `.replace(/[^\w\s-]/g, '')` */
  function StripDisallowed(s: string): (r: string)
    ensures forall i :: 0 <= i < |r| ==> Kept(r[i])
    ensures forall c :: c in r ==> c in s
  {
    FilterSatisfies(s, Kept);
    FilterMembers(s, Kept);
    Filter(s, Kept)
  }

  /** Every word character, whitespace character and hyphen of the input survives. */
  lemma StripKeepsKept(s: string)
    ensures forall c :: c in s && Kept(c) ==> c in StripDisallowed(s)
  {
    FilterMembers(s, Kept);
  }

  /** One character is kept exactly when it is a word character, whitespace or a
      hyphen; with `StripAppend` this says the kept characters survive in order
      and every other character is dropped. */
  lemma StripSingle(c: char)
    ensures StripDisallowed([c]) == if Kept(c) then [c] else []
  {
    FilterSingle(c, Kept);
  }

  /** What remains of `s` once the leading run of `p`-characters is dropped. */
  function SkipRun(s: string, p: char -> bool): (r: string)
    ensures |r| <= |s|
    ensures r == [] || !p(r[0])
    ensures s != [] && p(s[0]) ==> |r| < |s|
  {
    if s != [] && p(s[0]) then SkipRun(s[1..], p) else s
  }

  /** What `SkipRun` drops is a prefix made only of `p`-characters; what it
      keeps is the rest of `s`. */
  lemma {:induction false} SkipRunDrops(s: string, p: char -> bool)
    ensures var r := SkipRun(s, p); r == s[|s| - |r|..] && forall i :: 0 <= i < |s| - |r| ==> p(s[i])
  {
    if s != [] && p(s[0]) {
      SkipRunDrops(s[1..], p);
    }
  }

  /** Replaces every maximal run of `p`-characters by a single hyphen:
      `.replace(/\s+/g, '-')` for `p = IsSpace` and `.replace(/-+/g, '-')` for `p = IsHyphen`. */
  function CollapseRuns(s: string, p: char -> bool): (r: string)
    ensures |r| <= |s|
    decreases |s|
  {
    if s == [] then []
    else if p(s[0]) then "-" + CollapseRuns(SkipRun(s, p), p)
    else [s[0]] + CollapseRuns(s[1..], p)
  }

  /** Drops the leading whitespace. */
  function TrimStart(s: string): (r: string)
    ensures |r| <= |s|
    ensures r == [] || !IsSpace(r[0])
  {
    if s != [] && IsSpace(s[0]) then TrimStart(s[1..]) else s
  }

  /** Drops the trailing whitespace; what remains is a prefix. */
  function TrimEnd(s: string): (r: string)
    ensures |r| <= |s| && r == s[..|r|]
    ensures r == [] || !IsSpace(r[|r| - 1])
  {
    if s != [] && IsSpace(s[|s| - 1]) then TrimEnd(s[..|s| - 1]) else s
  }

  /** `.trim()`, on ASCII whitespace: the result neither starts nor ends with
      whitespace, and is never longer than the input. */
  function Trim(s: string): (r: string)
    ensures |r| <= |s|
    ensures r == [] || (!IsSpace(r[0]) && !IsSpace(r[|r| - 1]))
  {
    TrimEnd(TrimStart(s))
  }

  /** `generateSlug(name)` */
  function GenerateSlug(name: string): (slug: string)
    ensures IsSlugForm(slug)
  {
    var lowered := Lower(name);
    var stripped := StripDisallowed(lowered);
    var spaced := CollapseRuns(stripped, IsSpace);
    var squashed := CollapseRuns(spaced, IsHyphen);
    SlugFormSteps(name);
    Trim(squashed)
  }

  /** The subsequence of word characters, which the generator is meant to preserve. */
  function Words(s: string): string
  {
    Filter(s, IsWordChar)
  }

  // ---------------------------------------------------------------------
  // Facts about each step

  lemma {:induction false} CollapseChars(s: string, p: char -> bool)
    ensures forall c :: c in CollapseRuns(s, p) ==> c == '-' || (c in s && !p(c))
    decreases |s|
  {
    if s == [] {
    } else if p(s[0]) {
      var rest := SkipRun(s, p);
      SkipRunDrops(s, p);
      CollapseChars(rest, p);
      assert forall c :: c in rest ==> c in s by {
        assert rest == s[|s| - |rest|..];
      }
    } else {
      CollapseChars(s[1..], p);
    }
  }

  /** A collapsed string whose input starts with a non-run character starts with that character. */
  lemma CollapseHead(s: string, p: char -> bool)
    requires s != [] && !p(s[0])
    ensures CollapseRuns(s, p) == [s[0]] + CollapseRuns(s[1..], p)
  {
  }

  lemma {:induction false} CollapseNoDoubleHyphen(s: string)
    ensures NoDoubleHyphen(CollapseRuns(s, IsHyphen))
    decreases |s|
  {
    var r := CollapseRuns(s, IsHyphen);
    if s == [] {
    } else if IsHyphen(s[0]) {
      var rest := SkipRun(s, IsHyphen);
      CollapseNoDoubleHyphen(rest);
      var tail := CollapseRuns(rest, IsHyphen);
      assert r == "-" + tail;
      if rest != [] {
        CollapseHead(rest, IsHyphen);
        assert tail[0] == rest[0] != '-';
      }
    } else {
      CollapseNoDoubleHyphen(s[1..]);
      var tail := CollapseRuns(s[1..], IsHyphen);
      assert r == [s[0]] + tail;
      assert s[0] != '-';
    }
  }

  lemma {:induction false} TrimStartNoSpace(s: string)
    requires forall i :: 0 <= i < |s| ==> !IsSpace(s[i])
    ensures TrimStart(s) == s
  {
  }

  lemma {:induction false} TrimEndNoSpace(s: string)
    requires forall i :: 0 <= i < |s| ==> !IsSpace(s[i])
    ensures TrimEnd(s) == s
  {
  }

  /** `trim()` is a no-op on a string without whitespace. */
  lemma TrimNoSpace(s: string)
    requires forall i :: 0 <= i < |s| ==> !IsSpace(s[i])
    ensures Trim(s) == s
  {
    TrimStartNoSpace(s);
    TrimEndNoSpace(s);
  }

  /** The chain of facts behind the contract of `GenerateSlug`. */
  lemma SlugFormSteps(name: string)
    ensures var squashed := CollapseRuns(CollapseRuns(StripDisallowed(Lower(name)), IsSpace), IsHyphen);
      IsSlugForm(squashed) && Trim(squashed) == squashed
  {
    var lowered := Lower(name);
    var stripped := StripDisallowed(lowered);
    var spaced := CollapseRuns(stripped, IsSpace);
    var squashed := CollapseRuns(spaced, IsHyphen);
    assert forall c :: c in stripped ==> !IsUpper(c) && Kept(c) by {
      forall c | c in stripped ensures !IsUpper(c) && Kept(c) {
        assert c in lowered;
        var i :| 0 <= i < |lowered| && lowered[i] == c;
        var j :| 0 <= j < |stripped| && stripped[j] == c;
      }
    }
    CollapseChars(stripped, IsSpace);
    CollapseChars(spaced, IsHyphen);
    CollapseNoDoubleHyphen(spaced);
    assert forall i :: 0 <= i < |squashed| ==> IsSlugChar(squashed[i]) by {
      forall i | 0 <= i < |squashed| ensures IsSlugChar(squashed[i]) {
        assert squashed[i] in squashed;
      }
    }
    TrimNoSpace(squashed);
  }

  lemma {:induction false} SkipRunWords(s: string, p: char -> bool)
    requires forall c :: p(c) ==> !IsWordChar(c)
    ensures Words(SkipRun(s, p)) == Words(s)
  {
    if s != [] && p(s[0]) {
      SkipRunWords(s[1..], p);
      assert SkipRun(s, p) == SkipRun(s[1..], p);
      assert !IsWordChar(s[0]);
      assert Words(s) == Words(s[1..]);
    }
  }

  lemma {:induction false} CollapseWords(s: string, p: char -> bool)
    requires forall c :: p(c) ==> !IsWordChar(c)
    ensures Words(CollapseRuns(s, p)) == Words(s)
    decreases |s|
  {
    if s == [] {
    } else if p(s[0]) {
      var rest := SkipRun(s, p);
      CollapseWords(rest, p);
      SkipRunWords(s, p);
      assert Words("-" + CollapseRuns(rest, p)) == Words(CollapseRuns(rest, p)) by {
        assert ("-" + CollapseRuns(rest, p))[1..] == CollapseRuns(rest, p);
      }
    } else {
      CollapseWords(s[1..], p);
      assert ([s[0]] + CollapseRuns(s[1..], p))[1..] == CollapseRuns(s[1..], p);
    }
  }

  lemma {:induction false} StripWords(s: string)
    ensures Words(StripDisallowed(s)) == Words(s)
  {
    if s != [] {
      StripWords(s[1..]);
      var head := if Kept(s[0]) then [s[0]] else [];
      assert StripDisallowed(s) == head + StripDisallowed(s[1..]);
      WordsAppend(head, StripDisallowed(s[1..]));
    }
  }

  lemma WordsAppend(a: string, b: string)
    ensures Words(a + b) == Words(a) + Words(b)
  {
    FilterAppend(a, b, IsWordChar);
  }

  lemma StripAppend(a: string, b: string)
    ensures StripDisallowed(a + b) == StripDisallowed(a) + StripDisallowed(b)
  {
    FilterAppend(a, b, Kept);
  }

  // ---------------------------------------------------------------------
  // Properties of generateSlug

  /** The output contains only `[a-z0-9_-]`: no whitespace, no upper case. */
  lemma SlugCharset(name: string)
    ensures forall i :: 0 <= i < |GenerateSlug(name)| ==>
      IsSlugChar(GenerateSlug(name)[i]) && !IsSpace(GenerateSlug(name)[i]) && !IsUpper(GenerateSlug(name)[i])
    ensures NoDoubleHyphen(GenerateSlug(name))
  {
  }

  /** Letters, digits and underscores of the name survive, lower-cased and in order. */
  lemma SlugKeepsWords(name: string)
    ensures Words(GenerateSlug(name)) == Words(Lower(name))
  {
    var lowered := Lower(name);
    var stripped := StripDisallowed(lowered);
    var spaced := CollapseRuns(stripped, IsSpace);
    var squashed := CollapseRuns(spaced, IsHyphen);
    StripWords(lowered);
    CollapseWords(stripped, IsSpace);
    CollapseWords(spaced, IsHyphen);
    SlugFormSteps(name);
  }

  lemma {:induction false} LowerFixed(s: string)
    requires forall i :: 0 <= i < |s| ==> !IsUpper(s[i])
    ensures Lower(s) == s
  {
    if s != [] {
      LowerFixed(s[1..]);
    }
  }

  lemma StripFixed(s: string)
    requires forall i :: 0 <= i < |s| ==> Kept(s[i])
    ensures StripDisallowed(s) == s
  {
    FilterAll(s, Kept);
  }

  lemma {:induction false} CollapseFixed(s: string, p: char -> bool)
    requires forall i :: 0 <= i < |s| ==> p(s[i]) ==> s[i] == '-'
    requires NoDoubleHyphen(s)
    ensures CollapseRuns(s, p) == s
    decreases |s|
  {
    if s != [] {
      if p(s[0]) {
        assert SkipRun(s, p) == s[1..] by {
          if |s| > 1 {
            assert !(s[0] == '-' && s[1] == '-');
          }
        }
      }
      CollapseFixed(s[1..], p);
    }
  }

  /** A string of slug form is its own slug. */
  lemma SlugOfSlugForm(s: string)
    requires IsSlugForm(s)
    ensures GenerateSlug(s) == s
  {
    LowerFixed(s);
    StripFixed(s);
    CollapseFixed(s, IsSpace);
    CollapseFixed(s, IsHyphen);
    TrimNoSpace(s);
  }

  /** `generateSlug` is idempotent. */
  lemma SlugIdempotent(name: string)
    ensures GenerateSlug(GenerateSlug(name)) == GenerateSlug(name)
  {
    SlugOfSlugForm(GenerateSlug(name));
  }

  lemma CollapseLeading(s: string, p: char -> bool)
    requires s != [] && (p(s[0]) || s[0] == '-')
    ensures CollapseRuns(s, p) != [] && CollapseRuns(s, p)[0] == '-'
  {
  }

  lemma {:induction false} CollapseTrailing(s: string, p: char -> bool)
    requires s != [] && (p(s[|s| - 1]) || s[|s| - 1] == '-')
    ensures CollapseRuns(s, p) != [] && CollapseRuns(s, p)[|CollapseRuns(s, p)| - 1] == '-'
    decreases |s|
  {
    if p(s[0]) {
      var rest := SkipRun(s, p);
      SkipRunDrops(s, p);
      if rest != [] {
        assert rest[|rest| - 1] == s[|s| - 1];
        CollapseTrailing(rest, p);
      }
      LastAfterHyphen(CollapseRuns(rest, p));
    } else {
      var tail := CollapseRuns(s[1..], p);
      assert CollapseRuns(s, p) == [s[0]] + tail;
      if |s| > 1 {
        assert s[1..][|s| - 2] == s[|s| - 1];
        CollapseTrailing(s[1..], p);
        assert ([s[0]] + tail)[|tail|] == tail[|tail| - 1];
      } else {
        assert s[1..] == [] && tail == [];
      }
    }
  }

  lemma LastAfterHyphen(tail: string)
    requires tail == [] || tail[|tail| - 1] == '-'
    ensures ("-" + tail)[|tail|] == '-'
  {
  }

  /** Leading whitespace becomes a leading hyphen, which `trim()` does not remove. */
  lemma SlugLeadingSpace(name: string)
    requires name != [] && IsSpace(name[0])
    ensures GenerateSlug(name) != [] && GenerateSlug(name)[0] == '-'
  {
    var lowered := Lower(name);
    var stripped := StripDisallowed(lowered);
    assert stripped[0] == lowered[0];
    var spaced := CollapseRuns(stripped, IsSpace);
    CollapseLeading(stripped, IsSpace);
    CollapseLeading(spaced, IsHyphen);
    SlugFormSteps(name);
  }

  /** Trailing whitespace becomes a trailing hyphen, which `trim()` does not remove. */
  lemma SlugTrailingSpace(name: string)
    requires name != [] && IsSpace(name[|name| - 1])
    ensures GenerateSlug(name) != [] && GenerateSlug(name)[|GenerateSlug(name)| - 1] == '-'
  {
    var lowered := Lower(name);
    var n := |lowered|;
    assert lowered == lowered[..n - 1] + [lowered[n - 1]];
    StripAppend(lowered[..n - 1], [lowered[n - 1]]);
    var stripped := StripDisallowed(lowered);
    assert StripDisallowed([lowered[n - 1]]) == [lowered[n - 1]];
    assert stripped[|stripped| - 1] == lowered[n - 1];
    var spaced := CollapseRuns(stripped, IsSpace);
    CollapseTrailing(stripped, IsSpace);
    CollapseTrailing(spaced, IsHyphen);
    SlugFormSteps(name);
  }

  /** A character is among the word characters of `s` exactly when it is a
      word character of `s`. */
  lemma WordsMembers(s: string, c: char)
    ensures c in Words(s) <==> c in s && IsWordChar(c)
  {
    FilterMembers(s, IsWordChar);
  }

  /** Lower-casing keeps an underscore and never makes one. */
  lemma LowerUnderscore(s: string)
    ensures '_' in Lower(s) <==> '_' in s
  {
    var r := Lower(s);
    if '_' in s {
      var i :| 0 <= i < |s| && s[i] == '_';
      assert r[i] == '_';
    }
    if '_' in r {
      var i :| 0 <= i < |r| && r[i] == '_';
      assert s[i] == '_';
    }
  }

  /** An underscore ends up in the generated slug exactly when the name has one. */
  lemma SlugUnderscore(name: string)
    ensures '_' in GenerateSlug(name) <==> '_' in name
  {
    SlugKeepsWords(name);
    WordsMembers(GenerateSlug(name), '_');
    WordsMembers(Lower(name), '_');
    LowerUnderscore(name);
  }

  /** Without whitespace and hyphens, only the stripping step does anything. */
  lemma {:induction false} StripIsWords(s: string)
    requires forall i :: 0 <= i < |s| ==> !IsSpace(s[i]) && !IsHyphen(s[i])
    ensures StripDisallowed(s) == Words(s)
  {
    if s != [] {
      StripIsWords(s[1..]);
      assert Kept(s[0]) == IsWordChar(s[0]);
    }
  }

  /** Lower-casing creates no whitespace and no hyphen. */
  lemma LowerPlain(s: string)
    requires forall i :: 0 <= i < |s| ==> !IsSpace(s[i]) && !IsHyphen(s[i])
    ensures forall i :: 0 <= i < |Lower(s)| ==> !IsSpace(Lower(s)[i]) && !IsHyphen(Lower(s)[i])
  {
    forall i | 0 <= i < |s|
      ensures !IsSpace(Lower(s)[i]) && !IsHyphen(Lower(s)[i])
    {
      assert Lower(s)[i] == ToLower(s[i]);
    }
  }

  /** The word characters of a string are all word characters. */
  lemma WordsAreWordChars(s: string)
    ensures forall i :: 0 <= i < |Words(s)| ==> IsWordChar(Words(s)[i])
  {
    forall i | 0 <= i < |Words(s)|
      ensures IsWordChar(Words(s)[i])
    {
      WordsMembers(s, Words(s)[i]);
    }
  }

  /** A name without whitespace and hyphens slugs to its lower-cased word
      characters: every other character is dropped. */
  lemma SlugOfPlainName(name: string)
    requires forall i :: 0 <= i < |name| ==> !IsSpace(name[i]) && !IsHyphen(name[i])
    ensures GenerateSlug(name) == Words(Lower(name))
  {
    var lowered := Lower(name);
    LowerPlain(name);
    StripIsWords(lowered);
    WordsAreWordChars(lowered);
    WordCharsFixed(Words(lowered));
  }

  /** The last three steps leave a string of word characters alone. */
  lemma WordCharsFixed(w: string)
    requires forall i :: 0 <= i < |w| ==> IsWordChar(w[i])
    ensures CollapseRuns(CollapseRuns(w, IsSpace), IsHyphen) == w && Trim(w) == w
  {
    CollapseFixed(w, IsSpace);
    CollapseFixed(w, IsHyphen);
    TrimNoSpace(w);
  }

  /** A leading run that ends inside `x` is the same run in `x + y + z`. */
  lemma {:induction false} SkipRunAppend(x: string, y: string, z: string, p: char -> bool)
    requires SkipRun(x, p) != []
    ensures SkipRun(x + y + z, p) == SkipRun(x, p) + y + z
  {
    if p(x[0]) {
      assert (x + y + z)[0] == x[0] && (x + y + z)[1..] == x[1..] + y + z;
      SkipRunAppend(x[1..], y, z, p);
    }
  }

  /** A whole run, followed by a character outside the class, is skipped exactly. */
  lemma {:induction false} SkipRunWhole(run: string, b: string, p: char -> bool)
    requires forall i :: 0 <= i < |run| ==> p(run[i])
    requires b == [] || !p(b[0])
    ensures SkipRun(run + b, p) == b
  {
    if run == [] {
      assert run + b == b;
    } else {
      assert (run + b)[0] == run[0] && (run + b)[1..] == run[1..] + b;
      SkipRunWhole(run[1..], b, p);
    }
  }

  /** A maximal run inside the string becomes exactly one hyphen, and the text
      on either side is collapsed on its own. */
  lemma {:induction false} CollapseInterior(a: string, run: string, b: string, p: char -> bool)
    requires a == [] || !p(a[|a| - 1])
    requires run != [] && forall i :: 0 <= i < |run| ==> p(run[i])
    requires b == [] || !p(b[0])
    ensures CollapseRuns(a + run + b, p) == CollapseRuns(a, p) + "-" + CollapseRuns(b, p)
    decreases |a|
  {
    if a == [] {
      assert a + run + b == run + b;
      SkipRunWhole(run, b, p);
    } else if p(a[0]) {
      CollapseInteriorAfterRun(a, run, b, p);
    } else {
      CollapseInteriorAfterChar(a, run, b, p);
    }
  }

  /** A string ending outside the class keeps its last character past its leading run. */
  lemma {:induction false} SkipRunKeepsLast(s: string, p: char -> bool)
    requires s != [] && !p(s[|s| - 1])
    ensures SkipRun(s, p) != [] && SkipRun(s, p)[|SkipRun(s, p)| - 1] == s[|s| - 1]
  {
    if p(s[0]) {
      assert s[1..][|s[1..]| - 1] == s[|s| - 1];
      SkipRunKeepsLast(s[1..], p);
    }
  }

  /** A string that starts with a run collapses it to one hyphen. */
  lemma CollapseRunStart(s: string, p: char -> bool)
    requires s != [] && p(s[0])
    ensures CollapseRuns(s, p) == "-" + CollapseRuns(SkipRun(s, p), p)
  {
  }

  /** `CollapseInterior` when `a` starts with a character of the class. */
  lemma {:induction false} CollapseInteriorAfterRun(a: string, run: string, b: string, p: char -> bool)
    requires a != [] && p(a[0]) && !p(a[|a| - 1])
    requires run != [] && forall i :: 0 <= i < |run| ==> p(run[i])
    requires b == [] || !p(b[0])
    ensures CollapseRuns(a + run + b, p) == CollapseRuns(a, p) + "-" + CollapseRuns(b, p)
    decreases |a|, 0
  {
    var rest := SkipRun(a, p);
    SkipRunKeepsLast(a, p);
    SkipRunAppend(a, run, b, p);
    CollapseRunStart(a + run + b, p);
    CollapseInterior(rest, run, b, p);
    var left, right := CollapseRuns(rest, p), CollapseRuns(b, p);
    assert "-" + (left + "-" + right) == ("-" + left) + "-" + right;
  }

  /** `CollapseInterior` when `a` starts with a character outside the class. */
  lemma {:induction false} CollapseInteriorAfterChar(a: string, run: string, b: string, p: char -> bool)
    requires a != [] && !p(a[0]) && !p(a[|a| - 1])
    requires run != [] && forall i :: 0 <= i < |run| ==> p(run[i])
    requires b == [] || !p(b[0])
    ensures CollapseRuns(a + run + b, p) == CollapseRuns(a, p) + "-" + CollapseRuns(b, p)
    decreases |a|, 0
  {
    var s := a + run + b;
    var t := a[1..];
    assert s[0] == a[0] && s[1..] == t + run + b;
    assert t == [] || t[|t| - 1] == a[|a| - 1];
    calc {
      CollapseRuns(s, p);
    ==
      [a[0]] + CollapseRuns(t + run + b, p);
    == { CollapseInterior(t, run, b, p); }
      [a[0]] + (CollapseRuns(t, p) + "-" + CollapseRuns(b, p));
    ==
      ([a[0]] + CollapseRuns(t, p)) + "-" + CollapseRuns(b, p);
    == { CollapseHead(a, p); }
      CollapseRuns(a, p) + "-" + CollapseRuns(b, p);
    }
  }

  lemma LowerAppend(a: string, b: string)
    ensures Lower(a + b) == Lower(a) + Lower(b)
  {
    assert forall i :: 0 <= i < |a + b| ==> Lower(a + b)[i] == (Lower(a) + Lower(b))[i];
  }

  /** The lower-cased word characters of a plain word. */
  lemma PlainWord(w: string)
    requires forall i :: 0 <= i < |w| ==> !IsSpace(w[i]) && !IsHyphen(w[i])
    ensures StripDisallowed(Lower(w)) == Words(Lower(w))
    ensures forall i :: 0 <= i < |Words(Lower(w))| ==> IsWordChar(Words(Lower(w))[i])
  {
    LowerPlain(w);
    StripIsWords(Lower(w));
    WordsAreWordChars(Lower(w));
  }

  /** Two runs of word characters joined by one hyphen are left alone by the
      last two steps. */
  lemma HyphenatedFixed(u: string, v: string)
    requires forall i :: 0 <= i < |u| ==> IsWordChar(u[i])
    requires forall i :: 0 <= i < |v| ==> IsWordChar(v[i])
    ensures CollapseRuns(u + "-" + v, IsHyphen) == u + "-" + v && Trim(u + "-" + v) == u + "-" + v
  {
    assert u == [] || !IsHyphen(u[|u| - 1]);
    assert v == [] || !IsHyphen(v[0]);
    CollapseInterior(u, "-", v, IsHyphen);
    WordCharsFixed(u);
    WordCharsFixed(v);
    CollapseFixed(u, IsHyphen);
    CollapseFixed(v, IsHyphen);
    HyphenatedNoSpace(u, v);
  }

  /** Joining two strings without whitespace by a hyphen adds none. */
  lemma HyphenatedNoSpace(u: string, v: string)
    requires forall i :: 0 <= i < |u| ==> IsWordChar(u[i])
    requires forall i :: 0 <= i < |v| ==> IsWordChar(v[i])
    ensures Trim(u + "-" + v) == u + "-" + v
  {
    var x := u + "-" + v;
    forall i | 0 <= i < |x|
      ensures !IsSpace(x[i])
    {
      if i < |u| {
        assert x[i] == u[i];
      } else if i > |u| {
        assert x[i] == v[i - |u| - 1];
      }
    }
    TrimNoSpace(x);
  }

  /** The first step on two plain words around whitespace. */
  lemma StripTwoWords(w1: string, space: string, w2: string)
    requires forall i :: 0 <= i < |w1| ==> !IsSpace(w1[i]) && !IsHyphen(w1[i])
    requires forall i :: 0 <= i < |w2| ==> !IsSpace(w2[i]) && !IsHyphen(w2[i])
    requires forall i :: 0 <= i < |space| ==> IsSpace(space[i])
    ensures StripDisallowed(Lower(w1 + space + w2)) == Words(Lower(w1)) + space + Words(Lower(w2))
  {
    PlainWord(w1);
    PlainWord(w2);
    LowerAppend(w1 + space, w2);
    LowerAppend(w1, space);
    LowerFixed(space);
    StripAppend(Lower(w1) + space, Lower(w2));
    StripAppend(Lower(w1), space);
    StripFixed(space);
  }

  /** Whitespace between two plain words becomes a single hyphen:
      "Acme Corporation" gives "acme-corporation". */
  lemma SlugOfTwoWords(w1: string, space: string, w2: string)
    requires forall i :: 0 <= i < |w1| ==> !IsSpace(w1[i]) && !IsHyphen(w1[i])
    requires forall i :: 0 <= i < |w2| ==> !IsSpace(w2[i]) && !IsHyphen(w2[i])
    requires space != [] && forall i :: 0 <= i < |space| ==> IsSpace(space[i])
    ensures GenerateSlug(w1 + space + w2) == Words(Lower(w1)) + "-" + Words(Lower(w2))
  {
    var u, v := Words(Lower(w1)), Words(Lower(w2));
    PlainWord(w1);
    PlainWord(w2);
    StripTwoWords(w1, space, w2);
    SpacedTwoWords(u, space, v);
    HyphenatedFixed(u, v);
  }

  /** The whitespace step on two runs of word characters around whitespace. */
  lemma SpacedTwoWords(u: string, space: string, v: string)
    requires forall i :: 0 <= i < |u| ==> IsWordChar(u[i])
    requires forall i :: 0 <= i < |v| ==> IsWordChar(v[i])
    requires space != [] && forall i :: 0 <= i < |space| ==> IsSpace(space[i])
    ensures CollapseRuns(u + space + v, IsSpace) == u + "-" + v
  {
    assert u == [] || !IsSpace(u[|u| - 1]);
    assert v == [] || !IsSpace(v[0]);
    CollapseInterior(u, space, v, IsSpace);
    WordCharsFixed(u);
    WordCharsFixed(v);
    CollapseFixed(u, IsSpace);
    CollapseFixed(v, IsSpace);
  }

  // ---------------------------------------------------------------------
  // Organization creation defaults

  /** The fields of a validated creation request the service reads. */
  datatype OrganizationInput = OrganizationInput(name: string, slug: Option<string>, description: Option<string>)

  /** What `create` passes to the identity library. */
  datatype CreateOrganizationBody = CreateOrganizationBody(name: string, slug: string, description: string)

  /** `slug || generateSlug(name)` and `description || ''`. */
  function CreateBody(input: OrganizationInput): (body: CreateOrganizationBody)
    ensures body.name == input.name
    ensures input.slug.Some? && input.slug.value != "" ==> body.slug == input.slug.value
    ensures input.slug.None? || input.slug.value == "" ==> IsSlugForm(body.slug) && body.slug == GenerateSlug(input.name)
    ensures input.description.Some? ==> body.description == input.description.value
    ensures input.description.None? ==> body.description == ""
  {
    var slug := if input.slug.Some? && input.slug.value != "" then input.slug.value else GenerateSlug(input.name);
    var description := if input.description.Some? then input.description.value else "";
    CreateOrganizationBody(input.name, slug, description)
  }
}
