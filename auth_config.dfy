/**
 * The pure parts of the identity-library configuration: the `{{KEY}}`
 * substitution of the e-mail templates, the invitation link and the list
 * of trusted origins.
 *
 * Reading the template file is I/O: the template text is an input. The
 * environment variable APP_URL is an input too; unset and empty are both
 * the empty string.
 */
module AuthConfig {
  import opened Wrappers
  import opened Sequences

  // ---------------------------------------------------------------------
  // Global, literal string replacement

  /** `pat` occurs somewhere in `s`. */
  predicate Contains(s: string, pat: string)
    decreases |s|
  {
    |pat| <= |s| && (pat <= s || Contains(s[1..], pat))
  }

  /** No proper prefix of `pat` is also a suffix of it, so two occurrences
      never overlap. */
  predicate BorderFree(pat: string)
  {
    forall m :: 0 < m < |pat| ==> pat[..m] != pat[|pat| - m..]
  }

  /**
   * `s.replace(/pat/g, v)` for a pattern without metacharacters: scan left
   * to right, replace each occurrence and continue after it.
   */
  function ReplaceAll(s: string, pat: string, v: string): (r: string)
    requires |pat| > 0
    // a replacement as long as the pattern keeps the length
    ensures |v| == |pat| ==> |r| == |s|
    // an occurrence at the start is replaced there
    ensures pat <= s ==> v <= r
    decreases |s|
  {
    if s == [] then []
    else if pat <= s then v + ReplaceAll(s[|pat|..], pat, v)
    else [s[0]] + ReplaceAll(s[1..], pat, v)
  }

  /** With no occurrence the text is returned unchanged. */
  lemma {:induction false} ReplaceAllAbsent(s: string, pat: string, v: string)
    requires |pat| > 0
    requires !Contains(s, pat)
    ensures ReplaceAll(s, pat, v) == s
    decreases |s|
  {
    if s != [] {
      assert !(pat <= s);
      ReplaceAllAbsent(s[1..], pat, v);
      assert [s[0]] + s[1..] == s;
    }
  }

  /** The first occurrence of a border-free pattern after an occurrence-free
      prefix is the one replaced first. */
  lemma {:induction false} ReplaceAllSplit(a: string, pat: string, b: string, v: string)
    requires |pat| > 0 && BorderFree(pat)
    requires !Contains(a, pat)
    ensures ReplaceAll(a + pat + b, pat, v) == a + v + ReplaceAll(b, pat, v)
    decreases |a|
  {
    var s := a + pat + b;
    if a == [] {
      assert s == pat + b;
      assert pat <= s;
      assert s[|pat|..] == b;
    } else {
      NoEarlierOccurrence(a, pat, b);
      assert s[0] == a[0] && s[1..] == a[1..] + pat + b;
      calc {
        ReplaceAll(s, pat, v);
      ==
        [a[0]] + ReplaceAll(a[1..] + pat + b, pat, v);
      == { ReplaceAllSplit(a[1..], pat, b, v); }
        [a[0]] + (a[1..] + v + ReplaceAll(b, pat, v));
      == { assert [a[0]] + a[1..] == a; }
        a + v + ReplaceAll(b, pat, v);
      }
    }
  }

  /** An occurrence-free, non-empty prefix followed by a border-free pattern
      does not start with the pattern. */
  lemma NoEarlierOccurrence(a: string, pat: string, b: string)
    requires |pat| > 0 && BorderFree(pat)
    requires a != [] && !Contains(a, pat)
    ensures !(pat <= a + pat + b)
  {
    var s := a + pat + b;
    if |a| >= |pat| {
      assert s[..|pat|] == a[..|pat|];
      assert !(pat <= a);
    } else {
      var m := |pat| - |a|;
      assert s[|a|..|pat|] == pat[..m];
      assert pat[|a|..] != pat[..m];
    }
  }

  /** `pieces` joined with `sep` between neighbours. */
  function Join(pieces: seq<string>, sep: string): string
    requires |pieces| > 0
  {
    if |pieces| == 1 then pieces[0] else pieces[0] + sep + Join(pieces[1..], sep)
  }

  /** The global flag: every occurrence of a border-free pattern is replaced,
      not only the first. */
  lemma {:induction false} ReplaceAllEveryOccurrence(pieces: seq<string>, pat: string, v: string)
    requires |pieces| > 0 && |pat| > 0 && BorderFree(pat)
    requires forall i :: 0 <= i < |pieces| ==> !Contains(pieces[i], pat)
    ensures ReplaceAll(Join(pieces, pat), pat, v) == Join(pieces, v)
  {
    if |pieces| == 1 {
      ReplaceAllAbsent(pieces[0], pat, v);
    } else {
      ReplaceAllEveryOccurrence(pieces[1..], pat, v);
      ReplaceAllSplit(pieces[0], pat, Join(pieces[1..], pat), v);
    }
  }

  // ---------------------------------------------------------------------
  // Templates

  /** `{{KEY}}` */
  function Placeholder(key: string): (p: string)
    ensures |p| == |key| + 4
    ensures p[..2] == "{{" && p[2..|p| - 2] == key && p[|p| - 2..] == "}}"
  {
    "{{" + key + "}}"
  }

  predicate NoBraces(key: string)
  {
    forall i :: 0 <= i < |key| ==> key[i] != '{' && key[i] != '}'
  }

  /** A placeholder of a key without braces is border-free. */
  lemma PlaceholderBorderFree(key: string)
    requires NoBraces(key)
    ensures BorderFree(Placeholder(key))
  {
    var p := Placeholder(key);
    forall m | 0 < m < |p|
      ensures p[..m] != p[|p| - m..]
    {
      assert p[..m][0] == '{';
      assert p[|p| - m..][0] == p[|p| - m];
      if m < |p| - 1 {
        assert p[|p| - m] != '{' by {
          if |p| - m < |p| - 2 {
            assert p[|p| - m] == key[|p| - m - 2];
          }
        }
      } else {
        assert p[..m][1] == '{';
        assert p[|p| - m..][1] == p[2];
        if key != [] {
          assert p[2] == key[0];
        }
      }
    }
  }

  /** The template after the first `n` replacements, in entry order, each
      applied to the previous result. */
  function ApplyAll(template: string, replacements: seq<(string, string)>): string
  {
    if replacements == [] then template
    else
      var last := replacements[|replacements| - 1];
      ReplaceAll(ApplyAll(template, replacements[..|replacements| - 1]), Placeholder(last.0), last.1)
  }

  /** `getTemplate(templateName, replacements)` on the template's text. */
  method GetTemplate(template: string, replacements: seq<(string, string)>) returns (r: string)
    ensures r == ApplyAll(template, replacements)
  {
    r := template;
    for i := 0 to |replacements|
      invariant r == ApplyAll(template, replacements[..i])
    {
      var (key, value) := replacements[i];
      r := ReplaceAll(r, Placeholder(key), value);
      assert replacements[..i + 1][..i] == replacements[..i];
    }
    assert replacements[..|replacements|] == replacements;
  }

  /** A template holding no placeholder of any key comes back unchanged. */
  lemma {:induction false} TemplateWithoutPlaceholdersUnchanged(template: string, replacements: seq<(string, string)>)
    requires forall i :: 0 <= i < |replacements| ==> !Contains(template, Placeholder(replacements[i].0))
    ensures ApplyAll(template, replacements) == template
  {
    if replacements != [] {
      var n := |replacements| - 1;
      TemplateWithoutPlaceholdersUnchanged(template, replacements[..n]);
      ReplaceAllAbsent(template, Placeholder(replacements[n].0), replacements[n].1);
    }
  }

  /** A value holding a later key's placeholder has that placeholder filled in
      too: every occurrence of `{{second}}` in the value of `first` is replaced by
      the value of `second`. */
  lemma LaterPlaceholderSubstituted(first: string, second: string, pieces: seq<string>, value: string)
    requires NoBraces(second) && |pieces| > 0
    requires forall i :: 0 <= i < |pieces| ==> !Contains(pieces[i], Placeholder(second))
    ensures ApplyAll(Placeholder(first), [(first, Join(pieces, Placeholder(second))), (second, value)]) ==
      Join(pieces, value)
  {
    var held := Join(pieces, Placeholder(second));
    var replacements := [(first, held), (second, value)];
    assert replacements[..1] == [(first, held)];
    assert replacements[..1][..0] == [];
    ReplaceWhole(Placeholder(first), held);
    assert ApplyAll(Placeholder(first), replacements[..1]) == held;
    PlaceholderBorderFree(second);
    ReplaceAllEveryOccurrence(pieces, Placeholder(second), value);
  }

  /** Later replacements act on the result of the earlier ones. */
  lemma {:induction false} ApplyAllAppend(template: string, earlier: seq<(string, string)>, later: seq<(string, string)>)
    ensures ApplyAll(template, earlier + later) == ApplyAll(ApplyAll(template, earlier), later)
    decreases |later|
  {
    if later == [] {
      assert earlier + later == earlier;
    } else {
      var n := |later| - 1;
      ApplyAllAppend(template, earlier, later[..n]);
      assert (earlier + later)[..|earlier + later| - 1] == earlier + later[..n];
      assert (earlier + later)[|earlier + later| - 1] == later[n];
    }
  }

  lemma ReplaceWhole(pat: string, v: string)
    requires |pat| > 0
    ensures ReplaceAll(pat, pat, v) == v
  {
    assert pat <= pat;
    assert pat[|pat|..] == [];
    assert v + [] == v;
  }

  // ---------------------------------------------------------------------
  // Invitation link and trusted origins

  const DefaultAppUrl := "http://localhost:3001"
  const FrontendOrigin := "https://workline-frontend.vercel.app"
  const AcceptPath := "/accept-invitation/"

  /** `process.env.APP_URL || 'http://localhost:3001'` */
  function AppUrl(appUrl: string): (u: string)
    ensures u != ""
    ensures appUrl != "" ==> u == appUrl
  {
    if appUrl == "" then DefaultAppUrl else appUrl
  }

  /** The invitation link sent by e-mail. */
  function InviteLink(appUrl: string, invitationId: string): (link: string)
    ensures AppUrl(appUrl) <= link
    ensures |link| == |AppUrl(appUrl)| + |AcceptPath| + |invitationId|
    ensures link[|AppUrl(appUrl)|..|link| - |invitationId|] == AcceptPath
    ensures link[|link| - |invitationId|..] == invitationId
  {
    AppUrl(appUrl) + AcceptPath + invitationId
  }

  /** The invitation id read back from a link, when the link is one for this application. */
  function InvitationIdOf(appUrl: string, link: string): (id: Option<string>)
    ensures id.Some? ==> InviteLink(appUrl, id.value) == link
  {
    var prefix := AppUrl(appUrl) + AcceptPath;
    if prefix <= link then
      assert prefix + link[|prefix|..] == link;
      Some(link[|prefix|..])
    else None
  }

  /** The link determines the invitation. */
  lemma InviteLinkRoundTrip(appUrl: string, invitationId: string)
    ensures InvitationIdOf(appUrl, InviteLink(appUrl, invitationId)) == Some(invitationId)
  {
    var prefix := AppUrl(appUrl) + AcceptPath;
    assert InviteLink(appUrl, invitationId) == prefix + invitationId;
    assert (prefix + invitationId)[|prefix|..] == invitationId;
  }

  /** A string is truthy when it is not empty. */
  predicate Truthy(x: string)
  {
    x != ""
  }

  /** `.filter(Boolean)` on strings. */
  function FilterTruthy(s: seq<string>): (r: seq<string>)
    ensures forall x :: x in r <==> x in s && x != ""
    ensures |r| <= |s|
    ensures (forall i :: 0 <= i < |s| ==> s[i] != "") ==> r == s
  {
    FilterMembers(s, Truthy);
    FilterAll(s, Truthy);
    Filter(s, Truthy)
  }

  /** The filter keeps the order: filtering a concatenation filters each part. */
  lemma FilterTruthyAppend(a: seq<string>, b: seq<string>)
    ensures FilterTruthy(a + b) == FilterTruthy(a) + FilterTruthy(b)
  {
    FilterAppend(a, b, Truthy);
  }

  /** A single entry is kept exactly when it is truthy. */
  lemma FilterTruthySingle(x: string)
    ensures FilterTruthy([x]) == if x == "" then [] else [x]
  {
    FilterSingle(x, Truthy);
  }

  /** `trustedOrigins` */
  function TrustedOrigins(appUrl: string): (origins: seq<string>)
    ensures |origins| >= 2 && origins[0] == DefaultAppUrl && origins[1] == FrontendOrigin
    ensures appUrl == "" ==> origins == [DefaultAppUrl, FrontendOrigin]
    ensures appUrl != "" ==> origins == [DefaultAppUrl, FrontendOrigin, appUrl]
    ensures forall o :: o in origins ==> o != ""
  {
    var all := [DefaultAppUrl, FrontendOrigin, appUrl];
    assert all[1..] == [FrontendOrigin, appUrl] && [FrontendOrigin, appUrl][1..] == [appUrl];
    assert [appUrl][1..] == [];
    assert FilterTruthy([appUrl]) == (if appUrl == "" then [] else [appUrl]);
    assert FilterTruthy([FrontendOrigin, appUrl]) == [FrontendOrigin] + FilterTruthy([appUrl]);
    assert FilterTruthy(all) == [DefaultAppUrl] + FilterTruthy([FrontendOrigin, appUrl]);
    FilterTruthy(all)
  }
}
