/**
  The Markdown renderer's handling of uploaded images: the `upload-img-…`
  targets found in the Markdown, the cache of their public URLs (filled one
  key at a time as the resolver answers), and the choice the custom `img`
  renderer makes between "loading", "not found" and a picture.
 */
module MarkdownRenderer {
  import opened JsText
  import opened Wrappers

  const UploadPrefix: string := "upload-img-"

  /** A target the extraction can return: the upload prefix, at least one
      more character, and no `)`. */
  predicate IsToken(t: string) {
    |t| > |UploadPrefix| && StartsWith(t, UploadPrefix) && ')' !in t
  }

  // ---------------------------------------------------------------------
  // The regular expression /!\[[^\]]*\]\((upload-img-[^)]+)\)/g

  /** The first index at or after `from` holding `c`. */
  function FindChar(s: string, c: char, from: nat): (r: Option<nat>)
    requires from <= |s|
    decreases |s| - from
    ensures r.Some? ==> from <= r.value < |s| && s[r.value] == c
    ensures forall j :: from <= j < |s| && (r.None? || j < r.value) ==> s[j] != c
  {
    if from == |s| then None
    else if s[from] == c then Some(from)
    else FindChar(s, c, from + 1)
  }

  /** `prefix` occurs in `s` at index `i`, character by character. */
  predicate PrefixAt(s: string, i: nat, prefix: string) {
    i + |prefix| <= |s| && forall j :: 0 <= j < |prefix| ==> s[i + j] == prefix[j]
  }

  /** The regular expression matches `s[q..e + 1]`: `![`, a run of
      characters other than `]` ending at the `]` at index `k`, `(`, the
      upload prefix, at least one character other than `)`, and the `)` at
      index `e`. The capture group is `s[k + 2..e]`. */
  predicate ImageAt(s: string, q: nat, k: nat, e: nat) {
    && q + 2 <= k && k + 13 < e < |s|
    && s[q] == '!' && s[q + 1] == '['
    && s[k] == ']' && (forall j :: q + 2 <= j < k ==> s[j] != ']')
    && s[k + 1] == '(' && PrefixAt(s, k + 2, UploadPrefix)
    && s[e] == ')' && (forall j :: k + 2 <= j < e ==> s[j] != ')')
  }

  /** A match: where it starts, where its `]` is and where its closing `)` is. */
  datatype ImageMatch = ImageMatch(start: nat, close: nat, paren: nat)

  /** The match that starts at `q`, if any. Neither `[^\]]*` nor `[^)]+` can
      give back a character to help, so the `]` is the first one after `![`
      and the `)` the first one after the `(`. */
  function ImageMatchAt(s: string, q: nat): (r: Option<ImageMatch>)
    ensures r.Some? ==> r.value.start == q && ImageAt(s, q, r.value.close, r.value.paren)
    ensures r.None? ==> forall k, e :: !ImageAt(s, q, k, e)
  {
    if q + 2 <= |s| && s[q] == '!' && s[q + 1] == '[' then
      match FindChar(s, ']', q + 2)
      case None => None
      case Some(k) =>
        if k + 1 < |s| && s[k + 1] == '(' && PrefixAt(s, k + 2, UploadPrefix) then
          match FindChar(s, ')', k + 2)
          case Some(e) => if k + 13 < e then Some(ImageMatch(q, k, e)) else None
          case None => None
        else None
    else None
  }

  /** The positions of a match lie in order within the string. */
  predicate InBounds(s: string, m: ImageMatch) {
    m.start + 2 <= m.close && m.close + 2 <= m.paren < |s|
  }

  /** The leftmost match at or after `from`. */
  function FirstImage(s: string, from: nat): (r: Option<ImageMatch>)
    requires from <= |s|
    decreases |s| - from
    ensures r.Some? ==> from <= r.value.start && InBounds(s, r.value)
    ensures forall q :: from <= q < |s| && (r.None? || q < r.value.start) ==> ImageMatchAt(s, q).None?
  {
    if from == |s| then None
    else
      match ImageMatchAt(s, from)
      case Some(m) => Some(m)
      case None => FirstImage(s, from + 1)
  }

  /** The match found is the match of the regular expression at its start. */
  lemma {:induction false} FirstImageSound(s: string, from: nat)
    requires from <= |s|
    decreases |s| - from
    ensures FirstImage(s, from).Some? ==> ImageMatchAt(s, FirstImage(s, from).value.start) == FirstImage(s, from)
  {
    if from < |s| && ImageMatchAt(s, from).None? {
      FirstImageSound(s, from + 1);
    }
  }

  /** No match starts at any index in `[lo, hi)`. */
  predicate NoImageIn(s: string, lo: nat, hi: nat) {
    forall q :: lo <= q < hi ==> ImageMatchAt(s, q).None?
  }

  /** No match is skipped: none starts before the first match of `ms`, none
      between the end of one and the start of the next, and none after the
      last (for an empty `ms`, none at all from `from` on). */
  predicate Gapless(s: string, from: nat, ms: seq<ImageMatch>)
    decreases |ms|
  {
    if ms == [] then NoImageIn(s, from, |s|)
    else NoImageIn(s, from, ms[0].start) && Gapless(s, ms[0].paren + 1, ms[1..])
  }

  /** `markdown.matchAll(regex)` from index `from`: each search resumes
      after the previous match. The matches come in order without
      overlapping; `MatchesSound` adds that each is a match and
      `MatchesGapless` that none is skipped. */
  function MatchesFrom(s: string, from: nat): (ms: seq<ImageMatch>)
    requires from <= |s|
    decreases |s| - from
    ensures forall i :: 0 <= i < |ms| ==> from <= ms[i].start && InBounds(s, ms[i])
    ensures forall i :: 0 <= i < |ms| - 1 ==> ms[i].paren < ms[i + 1].start
  {
    match FirstImage(s, from)
    case None => []
    case Some(m) => [m] + MatchesFrom(s, m.paren + 1)
  }

  /** After the first match, `matchAll` goes on from the end of that match. */
  lemma MatchesTail(s: string, from: nat)
    requires from <= |s| && MatchesFrom(s, from) != []
    ensures FirstImage(s, from) == Some(MatchesFrom(s, from)[0])
    ensures MatchesFrom(s, from)[1..] == MatchesFrom(s, MatchesFrom(s, from)[0].paren + 1)
  {
    var m := FirstImage(s, from).value;
    var rest := MatchesFrom(s, m.paren + 1);
    assert MatchesFrom(s, from) == [m] + rest;
    assert ([m] + rest)[1..] == rest;
  }

  /** Each match of `ms` is the leftmost one from where the previous one
      ends (from `from` for the first), and after the last there is none. */
  predicate Chained(s: string, from: nat, ms: seq<ImageMatch>)
    decreases |ms|
  {
    && from <= |s|
    && if ms == [] then FirstImage(s, from).None?
       else FirstImage(s, from) == Some(ms[0]) && Chained(s, ms[0].paren + 1, ms[1..])
  }

  /** `matchAll` resumes each search after the previous match. */
  lemma {:induction false} MatchesChained(s: string, from: nat)
    requires from <= |s|
    decreases |s| - from
    ensures Chained(s, from, MatchesFrom(s, from))
  {
    match FirstImage(s, from)
    case None =>
      assert MatchesFrom(s, from) == [];
    case Some(m) =>
      var rest := MatchesFrom(s, m.paren + 1);
      assert MatchesFrom(s, from) == [m] + rest;
      assert ([m] + rest)[1..] == rest;
      MatchesChained(s, m.paren + 1);
  }

  /** Every match of a chained list is the match of the regular expression
      at its start. */
  lemma {:induction false} ChainedSound(s: string, from: nat, ms: seq<ImageMatch>, i: nat)
    requires Chained(s, from, ms) && i < |ms|
    decreases |ms|
    ensures ImageMatchAt(s, ms[i].start) == Some(ms[i])
  {
    if i == 0 {
      FirstImageSound(s, from);
    } else {
      ChainedSound(s, ms[0].paren + 1, ms[1..], i - 1);
      assert ms[1..][i - 1] == ms[i];
    }
  }

  /** Every match `matchAll` returns is the match of the regular
      expression at its start. */
  lemma MatchesSound(s: string, from: nat, i: nat)
    requires from <= |s| && i < |MatchesFrom(s, from)|
    ensures ImageMatchAt(s, MatchesFrom(s, from)[i].start) == Some(MatchesFrom(s, from)[i])
  {
    MatchesChained(s, from);
    ChainedSound(s, from, MatchesFrom(s, from), i);
  }

  /** A chained list skips no match. */
  lemma {:induction false} ChainedGapless(s: string, from: nat, ms: seq<ImageMatch>)
    requires Chained(s, from, ms)
    decreases |ms|
    ensures Gapless(s, from, ms)
  {
    if ms != [] {
      ChainedGapless(s, ms[0].paren + 1, ms[1..]);
    }
  }

  /** `matchAll` skips no match. */
  lemma MatchesGapless(s: string, from: nat)
    requires from <= |s|
    ensures Gapless(s, from, MatchesFrom(s, from))
  {
    MatchesChained(s, from);
    ChainedGapless(s, from, MatchesFrom(s, from));
  }

  /** When `matchAll` finds nothing there is no match at all, and otherwise
      none starts before the first one it finds. */
  lemma MatchesNoneBefore(s: string, from: nat)
    requires from <= |s|
    ensures MatchesFrom(s, from) == [] ==> NoImageIn(s, from, |s|)
    ensures MatchesFrom(s, from) != [] ==> NoImageIn(s, from, MatchesFrom(s, from)[0].start)
  {
  }

  /** In a gapless list, no match starts between the end of the `i`-th
      match and the start of the next. */
  lemma {:induction false} GaplessBetween(s: string, from: nat, ms: seq<ImageMatch>, i: nat)
    requires Gapless(s, from, ms) && i + 1 < |ms|
    decreases |ms|
    ensures NoImageIn(s, ms[i].paren + 1, ms[i + 1].start)
  {
    var rest := ms[1..];
    if i == 0 {
      assert rest[0] == ms[1];
      assert Gapless(s, ms[0].paren + 1, rest);
    } else {
      GaplessBetween(s, ms[0].paren + 1, rest, i - 1);
      assert rest[i - 1] == ms[i] && rest[i] == ms[i + 1];
    }
  }

  /** In a non-empty gapless list, no match starts after the last one. */
  lemma {:induction false} GaplessAfter(s: string, from: nat, ms: seq<ImageMatch>)
    requires Gapless(s, from, ms) && ms != []
    decreases |ms|
    ensures NoImageIn(s, ms[|ms| - 1].paren + 1, |s|)
  {
    var rest := ms[1..];
    if rest != [] {
      GaplessAfter(s, ms[0].paren + 1, rest);
      assert rest[|rest| - 1] == ms[|ms| - 1];
    }
  }

  /** `matchAll` skips nothing in between: no match starts between the end
      of the `i`-th match found and the start of the next. */
  lemma MatchesNoneBetween(s: string, from: nat, i: nat)
    requires from <= |s| && i + 1 < |MatchesFrom(s, from)|
    ensures NoImageIn(s, MatchesFrom(s, from)[i].paren + 1, MatchesFrom(s, from)[i + 1].start)
  {
    MatchesGapless(s, from);
    GaplessBetween(s, from, MatchesFrom(s, from), i);
  }

  /** `matchAll` skips nothing at the end: no match starts after the last
      one found. */
  lemma MatchesNoneAfter(s: string, from: nat)
    requires from <= |s| && MatchesFrom(s, from) != []
    ensures var ms := MatchesFrom(s, from); NoImageIn(s, ms[|ms| - 1].paren + 1, |s|)
  {
    MatchesGapless(s, from);
    GaplessAfter(s, from, MatchesFrom(s, from));
  }

  /** The captured file name of a match. */
  function Capture(s: string, m: ImageMatch): string
    requires InBounds(s, m)
  {
    s[m.close + 2..m.paren]
  }

  function Captures(s: string, ms: seq<ImageMatch>): (names: seq<string>)
    requires forall i :: 0 <= i < |ms| ==> InBounds(s, ms[i])
    ensures |names| == |ms|
    ensures forall i :: 0 <= i < |ms| ==> names[i] == Capture(s, ms[i])
  {
    if ms == [] then [] else [Capture(s, ms[0])] + Captures(s, ms[1..])
  }

  /** `matches.map((m) => m[1])`: the file names in order of appearance. */
  function Filenames(markdown: string): seq<string> {
    Captures(markdown, MatchesFrom(markdown, 0))
  }

  /** A captured name is a token: the upload prefix, one or more further
      characters, no `)`. */
  lemma CaptureIsToken(s: string, m: ImageMatch)
    requires ImageAt(s, m.start, m.close, m.paren)
    ensures IsToken(Capture(s, m))
  {
    var t := Capture(s, m);
    assert t[..|UploadPrefix|] == UploadPrefix;
    forall j | 0 <= j < |t| ensures t[j] != ')' {
      assert t[j] == s[m.close + 2 + j];
    }
  }

  /** Every extracted file name is a token, and it is the target of an image
      link in the Markdown: `](`, the name, `)` occur there. */
  lemma FilenamesAreTokens(markdown: string)
    ensures forall i :: 0 <= i < |Filenames(markdown)| ==> IsToken(Filenames(markdown)[i])
    ensures forall i :: 0 <= i < |Filenames(markdown)| ==>
              Contains(markdown, "](" + Filenames(markdown)[i] + ")")
  {
    var ms := MatchesFrom(markdown, 0);
    forall i | 0 <= i < |ms|
      ensures IsToken(Filenames(markdown)[i])
      ensures Contains(markdown, "](" + Filenames(markdown)[i] + ")")
    {
      MatchesSound(markdown, 0, i);
      CaptureIsToken(markdown, ms[i]);
      TargetOccurs(markdown, ms[i]);
    }
  }

  lemma TargetOccurs(s: string, m: ImageMatch)
    requires ImageAt(s, m.start, m.close, m.paren)
    ensures OccursAt(s, "](" + Capture(s, m) + ")", m.close)
    ensures Contains(s, "](" + Capture(s, m) + ")")
  {
    var k, e := m.close, m.paren;
    var pat := "](" + Capture(s, m) + ")";
    assert |pat| == e + 1 - k;
    forall j | 0 <= j < |pat| ensures s[k + j] == pat[j] {
      if 2 <= j < |pat| - 1 {
        assert pat[j] == Capture(s, m)[j - 2];
      }
    }
    assert s[k..k + |pat|] == pat;
    assert OccursAt(s, pat, k);
  }

  // ---------------------------------------------------------------------
  // `[...new Set(filenames)]`

  predicate Distinct(xs: seq<string>) {
    forall i, j :: 0 <= i < j < |xs| ==> xs[i] != xs[j]
  }

  /** The position of the first occurrence of `x`. */
  function IndexOf(xs: seq<string>, x: string): (i: nat)
    requires x in xs
    ensures i < |xs| && xs[i] == x
    ensures forall j :: 0 <= j < i ==> xs[j] != x
  {
    if xs[0] == x then 0 else 1 + IndexOf(xs[1..], x)
  }

  /** A `Set` built from `xs` and spread back into an array: each value
      once, in the order of its first occurrence. */
  function Dedup(xs: seq<string>): (d: seq<string>)
    ensures forall x :: x in d <==> x in xs
    ensures Distinct(d)
  {
    if xs == [] then []
    else
      var d := Dedup(xs[..|xs| - 1]);
      var last := xs[|xs| - 1];
      assert forall x :: x in xs <==> x in xs[..|xs| - 1] || x == last;
      if last in d then d else d + [last]
  }

  lemma IndexOfPrefix(xs: seq<string>, n: nat, x: string)
    requires n <= |xs| && x in xs[..n]
    ensures IndexOf(xs, x) == IndexOf(xs[..n], x)
  {
    var i := IndexOf(xs[..n], x);
    assert xs[i] == x;
  }

  /** The kept values appear in the order of their first occurrences. */
  lemma {:induction false} DedupOrder(xs: seq<string>)
    ensures forall i, j :: 0 <= i < j < |Dedup(xs)| ==> IndexOf(xs, Dedup(xs)[i]) < IndexOf(xs, Dedup(xs)[j])
  {
    if xs != [] {
      var n := |xs| - 1;
      var init := xs[..n];
      DedupOrder(init);
      var d := Dedup(init);
      forall i | 0 <= i < |d| ensures d[i] in init && IndexOf(xs, d[i]) == IndexOf(init, d[i]) < n {
        assert d[i] in d;
        IndexOfPrefix(xs, n, d[i]);
      }
      var dx := Dedup(xs);
      assert init == xs[..|xs| - 1];
      if xs[n] in d {
        assert dx == d;
      } else {
        assert dx == d + [xs[n]];
        assert xs[n] !in init;
        assert IndexOf(xs, xs[n]) == n;
        forall i, j | 0 <= i < j < |dx| ensures IndexOf(xs, dx[i]) < IndexOf(xs, dx[j]) {
          assert dx[i] == d[i];
          if j < |d| {
            assert dx[j] == d[j];
          }
        }
      }
    }
  }

  // ---------------------------------------------------------------------
  // The resolver and the cache

  /** What `getImagePublicUrl` sees: a failed request (a non-OK status, or
      any other rejection), or a JSON body whose `signedUrls` may be missing. */
  datatype Response = Failed | Body(signedUrls: Option<seq<string>>)

  /** The value the cache records for a response: the first signed URL, or
      `null` when there is none or the request failed. */
  function PublicUrl(r: Response): (u: Option<string>)
    ensures u.Some? <==> r.Body? && r.signedUrls.Some? && |r.signedUrls.value| > 0
    ensures u.Some? ==> u.value == r.signedUrls.value[0]
  {
    match r
    case Failed => None
    case Body(None) => None
    case Body(Some(urls)) => if |urls| > 0 then Some(urls[0]) else None
  }

  /** `!imageUrls[filename]`: the entry is missing, `null`, or the empty string. */
  predicate NeedsRequest(urls: map<string, Option<string>>, t: string) {
    t !in urls || urls[t].None? || urls[t].value == ""
  }

  /** The names, in order, whose entries need a request. */
  function KeepNeeding(urls: map<string, Option<string>>, names: seq<string>): (r: seq<string>)
    ensures forall t :: t in r <==> t in names && NeedsRequest(urls, t)
  {
    if names == [] then []
    else
      var init := names[..|names| - 1];
      var last := names[|names| - 1];
      assert forall t :: t in names <==> t in init || t == last;
      KeepNeeding(urls, init) + (if NeedsRequest(urls, last) then [last] else [])
  }

  lemma {:induction false} KeepNeedingDistinct(urls: map<string, Option<string>>, names: seq<string>)
    requires Distinct(names)
    ensures Distinct(KeepNeeding(urls, names))
  {
    if names != [] {
      var init := names[..|names| - 1];
      KeepNeedingDistinct(urls, init);
      assert names[|names| - 1] !in init;
    }
  }

  /** The requests one run of the effect issues for `markdown`. */
  function Requests(urls: map<string, Option<string>>, markdown: string): seq<string> {
    KeepNeeding(urls, Dedup(Filenames(markdown)))
  }

  /** One run issues at most one request per distinct name, exactly for the
      names of the Markdown whose entries are falsy, and only for tokens. */
  lemma RequestsExactly(urls: map<string, Option<string>>, markdown: string)
    ensures Distinct(Requests(urls, markdown))
    ensures forall t :: t in Requests(urls, markdown) <==> t in Filenames(markdown) && NeedsRequest(urls, t)
    ensures forall t :: t in Requests(urls, markdown) ==> IsToken(t)
  {
    KeepNeedingDistinct(urls, Dedup(Filenames(markdown)));
    FilenamesAreTokens(markdown);
  }

  /** `src?.replace(/^\.?\//, '')`: one leading `./` or `/` goes. */
  function Normalize(src: string): (r: string)
    ensures StartsWith(src, "./") ==> r == src[2..]
    ensures StartsWith(src, "/") ==> r == src[1..]
    ensures !StartsWith(src, "/") && !StartsWith(src, "./") ==> r == src
  {
    if |src| >= 2 && src[0] == '.' && src[1] == '/' then src[2..]
    else if |src| >= 1 && src[0] == '/' then src[1..]
    else src
  }

  /** Normalising removes only the first `/` of a doubled one. */
  lemma NormalizeOneLayer()
    ensures Normalize("//upload-img-a") == "/upload-img-a"
    ensures Normalize(".//upload-img-a") == "/upload-img-a"
    ensures Normalize("../upload-img-a") == "../upload-img-a"
  {
  }

  /** What the custom `img` renderer shows. */
  datatype ImgView = Loading | NotFound | Picture(src: Option<string>, alt: Option<string>)

  function ImgFor(src: Option<string>, alt: Option<string>, urls: map<string, Option<string>>): (v: ImgView)
    ensures src.Some? && StartsWith(Normalize(src.value), UploadPrefix) ==>
      var key := Normalize(src.value);
      && (v == Loading <==> key !in urls)
      && (v == NotFound <==> key in urls && urls[key].None?)
      && (key in urls && urls[key].Some? ==> v == Picture(urls[key], alt))
    ensures !(src.Some? && StartsWith(Normalize(src.value), UploadPrefix)) ==> v == Picture(src, alt)
  {
    match src
    case Some(s) =>
      var key := Normalize(s);
      if key != "" && StartsWith(key, UploadPrefix) then
        if key !in urls then Loading
        else if urls[key].None? then NotFound
        else Picture(urls[key], alt)
      else Picture(src, alt)
    case None => Picture(src, alt)
  }

  /** A token is its own normalised form, so the view of an extracted token
      looks up exactly the entry its request fills. */
  lemma TokenNormalizesToItself(t: string)
    requires IsToken(t)
    ensures Normalize(t) == t && StartsWith(t, UploadPrefix)
  {
    assert t[0] == UploadPrefix[0];
  }

  /** The cache of public URLs: an absent key has not been answered, `None`
      records a failure or an empty answer, `Some(u)` the URL. */
  class ImageUrlCache {
    var urls: map<string, Option<string>>

    constructor()
      ensures urls == map[]
    {
      urls := map[];
    }

    /** The `forEach` over the de-duplicated names: a request for every name
        whose entry is falsy, in order. The cache is read, not changed. */
    method RequestsFor(markdown: string) returns (requests: seq<string>)
      ensures requests == Requests(urls, markdown)
      ensures Distinct(requests)
      ensures forall t :: t in requests <==> t in Filenames(markdown) && NeedsRequest(urls, t)
    {
      var names := Dedup(Filenames(markdown));
      requests := [];
      for i := 0 to |names|
        invariant requests == KeepNeeding(urls, names[..i])
      {
        assert names[..i + 1][..i] == names[..i];
        if NeedsRequest(urls, names[i]) {
          requests := requests + [names[i]];
        }
      }
      assert names[..|names|] == names;
      RequestsExactly(urls, markdown);
    }

    /** A settled request: `setImageUrls((prev) => ({ ...prev, [filename]: v }))`
        with the URL on success and `null` on failure. Every other entry is kept. */
    method Settle(token: string, response: Response)
      modifies this
      ensures urls == old(urls)[token := PublicUrl(response)]
      ensures forall t :: t != token && t in old(urls) ==> t in urls && urls[t] == old(urls)[t]
    {
      urls := urls[token := PublicUrl(response)];
    }

    function View(src: Option<string>, alt: Option<string>): ImgView
      reads this
    {
      ImgFor(src, alt, urls)
    }
  }

  /** Once its request has settled, a token's image is no longer loading: it
      is the picture with the first signed URL, or "not found". */
  lemma SettledView(urls: map<string, Option<string>>, t: string, r: Response, alt: Option<string>)
    requires IsToken(t)
    ensures var v := ImgFor(Some(t), alt, urls[t := PublicUrl(r)]);
      && v != Loading
      && (v == NotFound <==> PublicUrl(r).None?)
      && (PublicUrl(r).Some? ==> v == Picture(PublicUrl(r), alt))
  {
    TokenNormalizesToItself(t);
  }

  /** A token that has a non-empty URL is never requested again, whatever the
      Markdown becomes. */
  lemma ResolvedNotRequested(urls: map<string, Option<string>>, t: string, markdown: string)
    requires t in urls && urls[t].Some? && urls[t].value != ""
    ensures t !in Requests(urls, markdown)
  {
    RequestsExactly(urls, markdown);
  }

  /** A token recorded as `null` is requested again by the next run over
      Markdown that still mentions it: nothing stops retrying. */
  lemma FailedRequestedAgain(urls: map<string, Option<string>>, t: string, markdown: string)
    requires t in urls && urls[t].None? && t in Filenames(markdown)
    ensures t in Requests(urls, markdown)
  {
    RequestsExactly(urls, markdown);
  }
}
