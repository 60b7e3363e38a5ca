/**
 * Link normalisation shared by the results page and the title page: whatever scheme and host a
 * scraped link carries is dropped, the path is made absolute, and the site's own origin is put
 * in front. The path's second non-empty segment is the title's id.
 */
module Links {
  import opened JsString

  const Origin: string := "https://www.mgeko.cc"

  /** Length of the longest prefix of `s` without a `/` (the `[^/]+` of the host pattern). */
  function HostRunLength(s: string): (n: nat)
    ensures n <= |s|
    ensures forall i | 0 <= i < n :: s[i] != '/'
    ensures n == |s| || s[n] == '/'
  {
    if s == "" || s[0] == '/' then 0 else 1 + HostRunLength(s[1..])
  }

  /** Does `/^https?:\/\/[^/]+/` match at the start of `link`? */
  predicate HasSchemeAndHost(link: string)
  {
    || (StartsWith(link, "https://") && |link| > 8 && link[8] != '/')
    || (StartsWith(link, "http://") && |link| > 7 && link[7] != '/')
  }

  /** Length of the text that `/^https?:\/\/[^/]+/` matches, 0 when it does not match. */
  function SchemeAndHostLength(link: string): nat
  {
    if StartsWith(link, "https://") && HostRunLength(link[8..]) > 0 then 8 + HostRunLength(link[8..])
    else if StartsWith(link, "http://") && HostRunLength(link[7..]) > 0 then 7 + HostRunLength(link[7..])
    else 0
  }

  /**
   * `link.replace(/^https?:\/\/[^/]+/, "")`. A link that does not start with a lower-case
   * "http://" or "https://" followed by at least one character other than `/` is kept as it
   * is; otherwise what is left is a proper suffix of the link that is empty or starts at a `/`.
   */
  function StripHost(link: string): (r: string)
    ensures !HasSchemeAndHost(link) ==> r == link
    ensures HasSchemeAndHost(link) ==>
              && |r| < |link|
              && r == link[|link| - |r|..]
              && (r == "" || r[0] == '/')
  {
    link[SchemeAndHostLength(link)..]
  }

  /** The pattern removes exactly the scheme and the host, whatever the host is. */
  lemma StripHostRemoves(scheme: string, host: string, rest: string)
    requires scheme == "http://" || scheme == "https://"
    requires host != "" && '/' !in host
    requires rest == "" || rest[0] == '/'
    ensures StripHost(scheme + host + rest) == rest
  {
    var link := scheme + host + rest;
    SchemeAndHostLengthOf(scheme, host, rest);
    assert link[|scheme| + |host|..] == rest;
  }

  lemma SchemeAndHostLengthOf(scheme: string, host: string, rest: string)
    requires scheme == "http://" || scheme == "https://"
    requires host != "" && '/' !in host
    requires rest == "" || rest[0] == '/'
    ensures SchemeAndHostLength(scheme + host + rest) == |scheme| + |host|
  {
    var link := scheme + host + rest;
    assert link[..|scheme|] == scheme;
    assert link[|scheme|..] == host + rest;
    HostRunOf(host, rest);
    if scheme == "http://" {
      assert link[4] == ':';
      assert !StartsWith(link, "https://");
    }
  }

  lemma {:induction false} HostRunOf(host: string, rest: string)
    requires '/' !in host
    requires rest == "" || rest[0] == '/'
    ensures HostRunLength(host + rest) == |host|
  {
    if host == "" {
      assert host + rest == rest;
    } else {
      assert (host + rest)[0] == host[0];
      assert (host + rest)[1..] == host[1..] + rest;
      HostRunOf(host[1..], rest);
    }
  }

  /** `mangaPath.startsWith("/") ? mangaPath : "/" + mangaPath`. */
  function CleanPath(p: string): (r: string)
    ensures r != "" && r[0] == '/'
    ensures StartsWith(p, "/") ==> r == p
    ensures !StartsWith(p, "/") ==> r == "/" + p
  {
    if StartsWith(p, "/") then p else "/" + p
  }

  /** The absolute path a scraped title link is rewritten to. */
  function TitlePath(link: string): (r: string)
    ensures r != "" && r[0] == '/'
  {
    CleanPath(StripHost(link))
  }

  /** `${baseUrl}${cleanMangaPath}`: the link on the site's own origin. */
  function NormalisedLink(link: string): (r: string)
    ensures StartsWith(r, Origin) && |r| > |Origin| && r[|Origin|] == '/'
    ensures r[|Origin|..] == TitlePath(link)
  {
    Origin + TitlePath(link)
  }

  /** A link on any host, for any path, is moved to the site's origin with the path kept. */
  lemma NormalisedLinkIgnoresHost(scheme: string, host: string, path: string)
    requires scheme == "http://" || scheme == "https://"
    requires host != "" && '/' !in host
    requires path != "" && path[0] == '/'
    ensures NormalisedLink(scheme + host + path) == Origin + path
  {
    StripHostRemoves(scheme, host, path);
  }

  /** A relative link keeps its path, with a `/` in front when it had none. */
  lemma NormalisedRelativeLink(link: string)
    requires !HasSchemeAndHost(link)
    ensures NormalisedLink(link) == Origin + (if StartsWith(link, "/") then link else "/" + link)
  {
  }

  /** The path of a normalised link is the path it was built from. */
  lemma TitlePathOfNormalised(link: string)
    ensures TitlePath(NormalisedLink(link)) == TitlePath(link)
  {
    var path := TitlePath(link);
    assert Origin == "https://" + "www.mgeko.cc";
    assert '/' !in "www.mgeko.cc";
    StripHostRemoves("https://", "www.mgeko.cc", path);
  }

  /** Normalising twice gives the same link as normalising once. */
  lemma NormalisedLinkIdempotent(link: string)
    ensures NormalisedLink(NormalisedLink(link)) == NormalisedLink(link)
  {
    TitlePathOfNormalised(link);
  }

  /** `path.split("/").filter(Boolean)`: the non-empty segments between slashes. */
  function Segments(path: string): (segs: seq<string>)
    ensures forall i | 0 <= i < |segs| :: segs[i] != "" && '/' !in segs[i]
  {
    var parts := Split(path, '/');
    var segs := NonEmpty(parts);
    assert forall i | 0 <= i < |segs| :: segs[i] in parts;
    segs
  }

  /** The segments, laid end to end, spell out the path with its slashes removed. */
  lemma SegmentsSpellPath(path: string)
    ensures Concat(Segments(path)) == Without(path, '/')
  {
    ConcatNonEmpty(Split(path, '/'));
    ConcatSplit(path, '/');
  }

  /** `pathSegments[1] || ""`: the second non-empty segment, or "" when there is none. */
  function MangaId(path: string): (id: string)
    ensures '/' !in id
    ensures id == "" <==> |Segments(path)| < 2
    ensures id != "" ==> id == Segments(path)[1]
  {
    var segs := Segments(path);
    if |segs| >= 2 then segs[1] else ""
  }

  lemma {:induction false} SplitWord(word: string, rest: string, sep: char)
    requires sep !in word
    ensures Split(word + rest, sep) == [word + Split(rest, sep)[0]] + Split(rest, sep)[1..]
  {
    if word == "" {
      assert word + rest == rest;
      assert word + Split(rest, sep)[0] == Split(rest, sep)[0];
      assert [Split(rest, sep)[0]] + Split(rest, sep)[1..] == Split(rest, sep);
    } else {
      assert (word + rest)[0] == word[0];
      assert (word + rest)[1..] == word[1..] + rest;
      SplitWord(word[1..], rest, sep);
      assert [word[0]] + (word[1..] + Split(rest, sep)[0]) == word + Split(rest, sep)[0];
    }
  }

  lemma SplitLeadingSeparator(word: string, rest: string, sep: char)
    ensures Split([sep] + word + rest, sep) == [""] + Split(word + rest, sep)
  {
    assert ([sep] + word + rest)[1..] == word + rest;
  }

  lemma SplitFirstEmpty(rest: string, sep: char)
    requires rest == "" || rest[0] == sep
    ensures Split(rest, sep)[0] == ""
  {
  }

  /** A slash, a word without slashes and then nothing or another slash split as "", the word, ... */
  lemma SplitAfterSlash(word: string, rest: string)
    requires '/' !in word
    requires rest == "" || rest[0] == '/'
    ensures Split("/" + word + rest, '/') == ["", word] + Split(rest, '/')[1..]
  {
    var tail := Split(rest, '/');
    SplitFirstEmpty(rest, '/');
    SplitWord(word, rest, '/');
    assert word + tail[0] == word;
    SplitLeadingSeparator(word, rest, '/');
  }

  /** In "/<kind>/<id>" followed by nothing or by another `/`, the id is the second segment. */
  lemma MangaIdOf(kind: string, id: string, rest: string)
    requires kind != "" && '/' !in kind && id != "" && '/' !in id
    requires rest == "" || rest[0] == '/'
    ensures MangaId("/" + kind + "/" + id + rest) == id
  {
    var afterKind := "/" + id + rest;
    var t := Split(rest, '/')[1..];
    SplitAfterSlash(id, rest);
    SplitAfterSlash(kind, afterKind);
    assert "/" + kind + "/" + id + rest == "/" + kind + afterKind;
    assert (["", id] + t)[1..] == [id] + t;
    NonEmptyOfPath(kind, id, t);
  }

  lemma NonEmptyOfPath(kind: string, id: string, t: seq<string>)
    requires kind != "" && id != ""
    ensures NonEmpty(["", kind] + ([id] + t)) == [kind, id] + NonEmpty(t)
  {
    var afterId := [id] + t;
    var afterKind := [kind] + afterId;
    var parts := ["", kind] + afterId;
    assert parts[0] == "" && parts[1..] == afterKind;
    assert NonEmpty(parts) == NonEmpty(afterKind);
    assert afterKind[0] == kind && afterKind[1..] == afterId;
    assert NonEmpty(afterKind) == [kind] + NonEmpty(afterId);
    assert afterId[0] == id && afterId[1..] == t;
    assert NonEmpty(afterId) == [id] + NonEmpty(t);
  }
}
