/**
  The `strip-announcer` markup preprocessor of frontend/svelte.config.js.
  It replaces SvelteKit's live-region announcer, whose inline style a
  strict Content-Security-Policy would block, with an empty component.

  The regular expression `<div id="svelte-announcer" [\s\S]*?<\/div>`
  without the global flag is modelled directly: the leftmost start, then
  the lazy (nearest) closing tag; only that first match is replaced.
 */
module StripAnnouncer {
  import opened Wrappers
  import opened Strings

  const Opening: string := "<div id=\"svelte-announcer\" "
  const Closing: string := "</div>"
  const Replacement: string := "{@const Component = null}<Component />"

  /** `code[i..e]` is a text the regular expression matches: the opening, anything, then a closing tag. */
  predicate IsMatch(code: string, i: nat, e: nat) {
    && e <= |code|
    && i + |Opening| + |Closing| <= e
    && OccursAt(code, Opening, i)
    && OccursAt(code, Closing, e - |Closing|)
  }

  /** The match JavaScript picks: the leftmost start and, for it, the shortest match. */
  ghost predicate IsFirstMatch(code: string, i: nat, e: nat) {
    && IsMatch(code, i, e)
    && forall i': nat, e': nat :: IsMatch(code, i', e') ==> i < i' || (i == i' && e <= e')
  }

  /** The search: the first opening, then the first closing tag after it; the bounds of the match. */
  function FindMatch(code: string): (r: Option<(nat, nat)>)
    ensures r.Some? ==> IsMatch(code, r.value.0, r.value.1)
  {
    match IndexOf(code, Opening, 0)
    case None => None
    case Some(i) =>
      match IndexOf(code, Closing, i + |Opening|)
      case None => None
      case Some(j) => Some((i, j + |Closing|))
  }

  /**
    `markup`: code the regular expression does not match is returned as it
    is; otherwise one span is cut out and the component text put in its
    place, everything before that span kept.
   */
  function Markup(code: string): (out: string)
    ensures (forall i: nat, e: nat :: !IsMatch(code, i, e)) ==> out == code
    ensures FindMatch(code).Some? ==>
      var (i, e) := FindMatch(code).value;
      && |out| == |code| - (e - i) + |Replacement|
      && out[..i] == code[..i]
      && Contains(out, Replacement)
  {
    match FindMatch(code)
    case None => code
    case Some((i, e)) =>
      var out := code[..i] + Replacement + code[e..];
      assert OccursAt(out, Replacement, i) by {
        assert out[i..i + |Replacement|] == Replacement;
      }
      out
  }

  /** The match found is the one JavaScript's regular expression picks. */
  lemma FindMatchIsFirst(code: string)
    ensures FindMatch(code).Some? ==> IsFirstMatch(code, FindMatch(code).value.0, FindMatch(code).value.1)
  {
    if FindMatch(code).Some? {
      var (i, e) := FindMatch(code).value;
      forall i': nat, e': nat | IsMatch(code, i', e')
        ensures i < i' || (i == i' && e <= e')
      {
        if i == i' {
          var j := e - |Closing|;
          assert IndexOf(code, Closing, i + |Opening|) == Some(j);
          assert i + |Opening| <= e' - |Closing|;
        }
      }
    }
  }

  /** When no match is found, the regular expression matches nowhere. */
  lemma NoFindMeansNoMatch(code: string)
    ensures FindMatch(code).None? ==> forall i: nat, e: nat :: !IsMatch(code, i, e)
  {
    if FindMatch(code).None? {
      forall i: nat, e: nat
        ensures !IsMatch(code, i, e)
      {
        match IndexOf(code, Opening, 0)
        case None =>
          assert !OccursAt(code, Opening, i);
        case Some(f) =>
          if OccursAt(code, Opening, i) && i + |Opening| + |Closing| <= e {
            assert f + |Opening| <= e - |Closing|;
            assert !OccursAt(code, Closing, e - |Closing|);
          }
      }
    }
  }

  /** The code changes exactly when it holds an announcer the regular expression matches. */
  lemma MarkupChangesIffMatch(code: string)
    ensures Markup(code) != code <==> exists i: nat, e: nat :: IsMatch(code, i, e)
  {
    NoFindMeansNoMatch(code);
    if FindMatch(code).Some? {
      var (i, e) := FindMatch(code).value;
      assert IsMatch(code, i, e);
      var out := Markup(code);
      assert code[i] == '<' by { assert code[i..i + |Opening|][0] == code[i]; }
      assert out[i] == '{' by { assert out[i] == Replacement[0]; }
    }
  }

  /** Before the replacement there is no announcer: the first one is the one removed. */
  lemma MarkupKeepsAnnouncerFreePrefix(code: string)
    ensures FindMatch(code).Some? ==>
      var (i, e) := FindMatch(code).value;
      && Markup(code)[..i] == code[..i]
      && Markup(code)[i..i + |Replacement|] == Replacement
      && Markup(code)[i + |Replacement|..] == code[e..]
      && forall k: nat :: k < i ==> !OccursAt(code, Opening, k)
  {
  }
}
