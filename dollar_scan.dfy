/**
  How the two block-math regular expressions find `$$ … $$` spans:
  `/\$\$[\s\S]*?\$\$/` (body may be empty) and `/\$\$([\s\S]+?)\$\$/`
  (body of at least one character). Both are lazy, so a match closes at the
  first `$$` that leaves room for the minimal body, and both are searched
  leftmost-first from a start position, as `split`, `exec` and `matchAll` do.
 */
module DollarScan {
  import opened JsText
  import opened Wrappers

  /** `$$` starts at index `i` of `s`. */
  predicate DollarsAt(s: string, i: int) {
    0 <= i && i + 2 <= |s| && s[i] == '$' && s[i + 1] == '$'
  }

  /** The same as an occurrence of the two-character string `$$`. */
  lemma DollarsAtIsOccurrence(s: string, i: int)
    ensures DollarsAt(s, i) <==> OccursAt(s, "$$", i)
  {
    if 0 <= i && i + 2 <= |s| {
      assert s[i..i + 2] == [s[i], s[i + 1]];
    }
  }

  /** Index of the first `$$` at or after `from`. */
  function NextDollars(s: string, from: nat): (r: Option<nat>)
    decreases |s| - from
    ensures r.Some? ==> from <= r.value && DollarsAt(s, r.value)
    ensures forall j :: from <= j && (r.None? || j < r.value) ==> !DollarsAt(s, j)
  {
    if from + 2 > |s| then None
    else if DollarsAt(s, from) then Some(from)
    else NextDollars(s, from + 1)
  }

  /** The end of the lazy match `$$`, at least `minBody` characters, `$$`
      that starts at `q`, if one starts there: the closing `$$` is the first
      one that leaves room for the minimal body. */
  function MatchEnd(s: string, q: nat, minBody: nat): (r: Option<nat>)
    ensures r.Some? ==> && DollarsAt(s, q) && q + 4 + minBody <= r.value <= |s|
                        && DollarsAt(s, r.value - 2)
                        && forall j :: q + 2 + minBody <= j < r.value - 2 ==> !DollarsAt(s, j)
    ensures r.None? ==> !DollarsAt(s, q) || forall j :: q + 2 + minBody <= j ==> !DollarsAt(s, j)
  {
    if DollarsAt(s, q) then
      match NextDollars(s, q + 2 + minBody)
      case Some(j) => Some(j + 2)
      case None => None
    else None
  }

  datatype Span = Span(start: nat, end: nat)

  /** The leftmost match at or after `from`: what a global regular
      expression finds when its search starts at `from`. */
  function FirstMatch(s: string, from: nat, minBody: nat): (r: Option<Span>)
    decreases |s| - from
    ensures r.Some? ==> from <= r.value.start && MatchEnd(s, r.value.start, minBody) == Some(r.value.end)
    ensures forall j :: from <= j && (r.None? || j < r.value.start) ==> MatchEnd(s, j, minBody).None?
  {
    if from >= |s| then None
    else
      match MatchEnd(s, from, minBody)
      case Some(e) => Some(Span(from, e))
      case None => FirstMatch(s, from + 1, minBody)
  }

  /** A `$$` inside an infix of `s` is a `$$` of `s`. */
  lemma DollarsInInfix(s: string, p: nat, q: nat, j: nat)
    requires p <= q <= |s|
    requires DollarsAt(s[p..q], j)
    ensures DollarsAt(s, p + j)
  {
    assert s[p..q][j] == s[p + j] && s[p..q][j + 1] == s[p + j + 1];
  }

  /** A string with no `$$` holds no match at all. */
  lemma NoDollarsNoMatch(s: string, from: nat, minBody: nat)
    requires !Contains(s, "$$")
    ensures FirstMatch(s, from, minBody).None?
  {
    forall j | 0 <= j ensures !DollarsAt(s, j) {
      DollarsAtIsOccurrence(s, j);
    }
  }
}
