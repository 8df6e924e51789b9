/** The derivation effect of the configurator: from the form and the
    preview flag to the optional `ResultData` (image URL, canonical badge
    URL, HTML and Markdown embed snippets). */
module RequestDeriver {
  import opened Wrappers
  import Text
  import opened FormUrlEncoded
  import opened BadgeForm

  /** The badge service's origin: scheme, service name and regional domain. */
  const Origin := "https://" + "bazzi-server-464152216340" + ".asia-northeast3.run.app"
  const BadgePath := "/api/badges"
  const PreviewPath := "/api/badges/preview"
  const DefaultLabel := "Views"

  datatype ResultData = ResultData(badgeUrl: string, htmlCode: string, markdownCode: string, imageUrl: string)

  /** The query's pairs before encoding, in the order the code lists them:
      the label falls back to "Views" when empty, the colour loses its first
      `#`, the font size is its `toString()`. */
  function QueryPairs(f: BadgeForm): seq<Pair> {
    [ Pair("url", f.url),
      Pair("label", if f.labelText == "" then DefaultLabel else f.labelText),
      Pair("color", Text.RemoveFirst(f.color, '#')),
      Pair("fontSize", FontSizeText(f.fontSize)) ]
  }

  /** The part of a URL before its first `?` (all of it when there is none). */
  function PathOf(u: string): string {
    match Text.IndexOf(u, '?')
    case None => u
    case Some(i) => u[..i]
  }

  /** The part of a URL after its first `?` (empty when there is none). */
  function QueryOf(u: string): string {
    match Text.IndexOf(u, '?')
    case None => ""
    case Some(i) => u[i + 1..]
  }

  function Endpoint(isPreview: bool): string {
    if isPreview then PreviewPath else BadgePath
  }

  /** The derivation: nothing while the tracked URL is empty; otherwise the
      image URL (preview or canonical endpoint), the canonical badge URL
      sharing its query, and snippets embedding the canonical URL and the
      label exactly as typed. */
  function Derive(f: BadgeForm, isPreview: bool): (r: Option<ResultData>)
    ensures r.None? <==> f.url == ""
    ensures r.Some? ==> PathOf(r.value.badgeUrl) == Origin + BadgePath
    ensures r.Some? ==> PathOf(r.value.imageUrl) == Origin + Endpoint(isPreview)
    ensures r.Some? ==> QueryOf(r.value.imageUrl) == QueryOf(r.value.badgeUrl)
    ensures r.Some? ==> Parse(QueryOf(r.value.badgeUrl)) == Some(QueryPairs(f))
    ensures r.Some? ==> r.value.htmlCode == "<img src=\"" + r.value.badgeUrl + "\" alt=\"" + f.labelText + "\" />"
    ensures r.Some? ==> r.value.markdownCode == "![" + f.labelText + "](" + r.value.badgeUrl + ")"
  {
    if f.url == "" then None
    else
      var params := Serialize(QueryPairs(f));
      var badgeUrl := Origin + Endpoint(isPreview) + "?" + params;
      var finalBadgeUrl := Origin + BadgePath + "?" + params;
      SplitAtQuery(isPreview, QueryPairs(f));
      SplitAtQuery(false, QueryPairs(f));
      Some(ResultData(
        finalBadgeUrl,
        "<img src=\"" + finalBadgeUrl + "\" alt=\"" + f.labelText + "\" />",
        "![" + f.labelText + "](" + finalBadgeUrl + ")",
        badgeUrl))
  }

  lemma EndpointsHaveNoQuestionMark(isPreview: bool)
    ensures '?' !in Origin + Endpoint(isPreview)
  {
    assert '?' !in "https://";
    assert '?' !in "bazzi-server-464152216340";
    assert '?' !in ".asia-northeast3.run.app";
    assert '?' !in Endpoint(isPreview);
  }

  /** A URL built as origin, endpoint, `?`, serialized query splits back
      into those two parts. */
  lemma SplitAtQuery(isPreview: bool, ps: seq<Pair>)
    ensures PathOf(Origin + Endpoint(isPreview) + "?" + Serialize(ps)) == Origin + Endpoint(isPreview)
    ensures QueryOf(Origin + Endpoint(isPreview) + "?" + Serialize(ps)) == Serialize(ps)
  {
    EndpointsHaveNoQuestionMark(isPreview);
    SplitUrl(Origin + Endpoint(isPreview), Serialize(ps));
  }

  /** A path without `?` followed by `?` and a query splits back into the two. */
  lemma SplitUrl(path: string, query: string)
    requires '?' !in path
    ensures PathOf(path + "?" + query) == path
    ensures QueryOf(path + "?" + query) == query
  {
    Text.IndexOfAfterPrefix(path, '?', query);
  }

  /** The query of both URLs carries exactly the keys url, label, color and
      fontSize, in that order, with their values before encoding. */
  lemma DerivedQuery(f: BadgeForm, isPreview: bool)
    requires f.url != ""
    ensures var ps := Parse(QueryOf(Derive(f, isPreview).value.imageUrl));
      && ps.Some? && |ps.value| == 4
      && ps.value[0] == Pair("url", f.url)
      && ps.value[1] == Pair("label", if f.labelText == "" then "Views" else f.labelText)
      && ps.value[2] == Pair("color", Text.RemoveFirst(f.color, '#'))
      && ps.value[3] == Pair("fontSize", FontSizeText(f.fontSize))
  {
  }

  lemma SnippetsWithEmptyLabel(url: string, html: string, markdown: string)
    requires html == "<img src=\"" + url + "\" alt=\"" + "" + "\" />"
    requires markdown == "![" + "" + "](" + url + ")"
    ensures html == "<img src=\"" + url + "\" alt=\"\" />"
    ensures markdown == "![](" + url + ")"
  {
    assert "\" alt=\"" + "" == "\" alt=\"";
    assert "![" + "" == "![";
    assert "<img src=\"" + url + "\" alt=\"" + "\" />" == "<img src=\"" + url + "\" alt=\"\" />" by {
      assert "\" alt=\"" + "\" />" == "\" alt=\"\" />";
    }
  }

  /** An empty label gives empty alt text and link text in the snippets,
      while the query still says label=Views. */
  lemma EmptyLabelSnippets(f: BadgeForm, isPreview: bool)
    requires f.url != "" && f.labelText == ""
    ensures var r := Derive(f, isPreview).value;
      && r.htmlCode == "<img src=\"" + r.badgeUrl + "\" alt=\"\" />"
      && r.markdownCode == "![](" + r.badgeUrl + ")"
      && Parse(QueryOf(r.badgeUrl)).value[1] == Pair("label", "Views")
  {
    var r := Derive(f, isPreview).value;
    SnippetsWithEmptyLabel(r.badgeUrl, r.htmlCode, r.markdownCode);
  }

  /** The preview flag moves only the image URL: the canonical URL and the
      snippets are the same either way, and without the flag the image is
      the canonical URL itself. */
  lemma PreviewFlagMovesOnlyImage(f: BadgeForm)
    requires f.url != ""
    ensures Derive(f, true).value.badgeUrl == Derive(f, false).value.badgeUrl
    ensures Derive(f, true).value.htmlCode == Derive(f, false).value.htmlCode
    ensures Derive(f, true).value.markdownCode == Derive(f, false).value.markdownCode
    ensures Derive(f, false).value.imageUrl == Derive(f, false).value.badgeUrl
    ensures Derive(f, true).value.imageUrl != Derive(f, true).value.badgeUrl
  {
    var r := Derive(f, true).value;
    assert PathOf(r.imageUrl) != PathOf(r.badgeUrl) by {
      assert |Origin + PreviewPath| != |Origin + BadgePath|;
    }
  }

  /** Two forms give the same image URL exactly when their queries carry
      the same pairs. */
  lemma SameImageUrlIffSamePairs(f: BadgeForm, g: BadgeForm, isPreview: bool)
    requires f.url != "" && g.url != ""
    ensures Derive(f, isPreview).value.imageUrl == Derive(g, isPreview).value.imageUrl
        <==> QueryPairs(f) == QueryPairs(g)
  {
  }

  /** Clearing a "Views" label changes the snippets but not the image URL. */
  lemma LabelFallbackKeepsImageUrl(f: BadgeForm, isPreview: bool)
    requires f.url != "" && f.labelText == "Views"
    ensures Derive(f.(labelText := ""), isPreview).value.imageUrl == Derive(f, isPreview).value.imageUrl
    ensures Derive(f.(labelText := ""), isPreview).value.htmlCode != Derive(f, isPreview).value.htmlCode
  {
    var r := Derive(f, isPreview).value;
    var e := Derive(f.(labelText := ""), isPreview).value;
    assert r.badgeUrl == e.badgeUrl;
    assert |r.htmlCode| != |e.htmlCode|;
  }

  lemma EncodeAppend(a: string, ea: string, b: string, eb: string)
    requires Encode(a) == ea && Encode(b) == eb
    ensures Encode(a + b) == ea + eb
  {
    EncodeConcat(a, b);
  }

  lemma EncodeAppendEscaped(x: string, ex: string, c: string, ec: string)
    requires Encode(x) == ex
    requires |c| == 1 && c[0] as int < 0x80 && c[0] != ' ' && !IsPlain(c[0] as int)
    requires ec == ['%', HexDigit(c[0] as int / 16), HexDigit(c[0] as int % 16)]
    ensures Encode(x + c) == ex + ec
  {
    EncodeEscaped(c[0]);
    assert c == [c[0]];
    EncodeAppend(x, ex, c, ec);
  }

  lemma EncodeAppendPlain(x: string, ex: string, p: string)
    requires Encode(x) == ex
    requires forall i :: 0 <= i < |p| ==> IsPlain(p[i] as int)
    ensures Encode(x + p) == ex + p
  {
    EncodePlain(p);
    EncodeAppend(x, ex, p, p);
  }

  /** The tracked URL of the example, percent-encoded piece by piece: the
      scheme and the host are sent as they are, each `:` becomes `%3A` and
      each `/` becomes `%2F`. */
  lemma EncodeGithubUrl(scheme: string, colon: string, slash: string, host: string, pctColon: string, pctSlash: string)
    requires scheme == "https" && colon == ":" && slash == "/" && host == "github.com"
    requires pctColon == "%3A" && pctSlash == "%2F"
    ensures Encode(scheme + colon + slash + slash + host) == scheme + pctColon + pctSlash + pctSlash + host
  {
    EncodeUrlPieces(scheme, colon, slash, host, pctColon, pctSlash);
  }

  lemma EncodeUrlPieces(scheme: string, colon: string, slash: string, host: string, pctColon: string, pctSlash: string)
    requires forall i :: 0 <= i < |scheme| ==> IsPlain(scheme[i] as int)
    requires forall i :: 0 <= i < |host| ==> IsPlain(host[i] as int)
    requires |colon| == 1 && colon[0] as int < 0x80 && colon[0] != ' ' && !IsPlain(colon[0] as int)
    requires |slash| == 1 && slash[0] as int < 0x80 && slash[0] != ' ' && !IsPlain(slash[0] as int)
    requires pctColon == ['%', HexDigit(colon[0] as int / 16), HexDigit(colon[0] as int % 16)]
    requires pctSlash == ['%', HexDigit(slash[0] as int / 16), HexDigit(slash[0] as int % 16)]
    ensures Encode(scheme + colon + slash + slash + host) == scheme + pctColon + pctSlash + pctSlash + host
  {
    EncodePlain(scheme);
    EncodeAppendEscaped(scheme, scheme, colon, pctColon);
    EncodeAppendEscaped(scheme + colon, scheme + pctColon, slash, pctSlash);
    EncodeAppendEscaped(scheme + colon + slash, scheme + pctColon + pctSlash, slash, pctSlash);
    EncodeAppendPlain(scheme + colon + slash + slash, scheme + pctColon + pctSlash + pctSlash, host);
  }

  lemma SerializeCons(ps: seq<Pair>)
    requires |ps| >= 2
    ensures Serialize(ps) == SerializePair(ps[0]) + "&" + Serialize(ps[1..])
  {
  }

  lemma JoinFour(s: string, a: string, b: string, c: string, d: string, t1: string, t2: string)
    requires s == a + "&" + t1 && t1 == b + "&" + t2 && t2 == c + "&" + d
    ensures s == a + "&" + b + "&" + c + "&" + d
  {
  }

  lemma SerializeFour(ps: seq<Pair>)
    requires |ps| == 4
    ensures Serialize(ps) == SerializePair(ps[0]) + "&" + SerializePair(ps[1]) + "&"
      + SerializePair(ps[2]) + "&" + SerializePair(ps[3])
  {
    SerializeCons(ps);
    SerializeCons(ps[1..]);
    SerializeCons(ps[2..]);
    assert ps[1..][1..] == ps[2..];
    assert ps[2..][1..] == ps[3..];
    assert Serialize(ps[3..]) == SerializePair(ps[3]);
    JoinFour(Serialize(ps), SerializePair(ps[0]), SerializePair(ps[1]), SerializePair(ps[2]), SerializePair(ps[3]),
      Serialize(ps[1..]), Serialize(ps[2..]));
  }

  lemma SerializePlainPair(p: Pair)
    requires forall i :: 0 <= i < |p.name| ==> IsPlain(p.name[i] as int)
    requires forall i :: 0 <= i < |p.value| ==> IsPlain(p.value[i] as int)
    ensures SerializePair(p) == p.name + "=" + p.value
  {
    EncodePlain(p.name);
    EncodePlain(p.value);
  }

  /** Both URLs end in the serialized pairs of the form. */
  lemma DerivedQueryText(f: BadgeForm, isPreview: bool)
    requires f.url != ""
    ensures QueryOf(Derive(f, isPreview).value.imageUrl) == Serialize(QueryPairs(f))
    ensures QueryOf(Derive(f, isPreview).value.badgeUrl) == Serialize(QueryPairs(f))
  {
    SplitAtQuery(isPreview, QueryPairs(f));
    SplitAtQuery(false, QueryPairs(f));
  }

  lemma ExamplePairs(f: BadgeForm)
    requires f == Initial.(url := f.url)
    ensures QueryPairs(f) == [Pair("url", f.url), Pair("label", "Views"),
                              Pair("color", "0d6efd"), Pair("fontSize", "12")]
  {
    assert Text.RemoveFirst("#0d6efd", '#') == "0d6efd";
    assert FontSizeText(Num(12)) == "12";
  }

  lemma PairText(p: Pair, name: string, value: string)
    requires Encode(p.name) == name && Encode(p.value) == value
    ensures SerializePair(p) == name + "=" + value
  {
  }

  lemma SeparatedPair(p: Pair, text: string)
    requires forall i :: 0 <= i < |p.name| ==> IsPlain(p.name[i] as int)
    requires forall i :: 0 <= i < |p.value| ==> IsPlain(p.value[i] as int)
    requires text == "&" + (p.name + "=" + p.value)
    ensures "&" + SerializePair(p) == text
  {
    SerializePlainPair(p);
  }

  lemma JoinExample(s: string, a: string, b: string, c: string, d: string, b': string, c': string, d': string)
    requires s == a + "&" + b + "&" + c + "&" + d
    requires "&" + b == b' && "&" + c == c' && "&" + d == d'
    ensures s == a + b' + c' + d'
  {
  }

  lemma LabelPiece(p: Pair)
    requires p == Pair("label", "Views")
    ensures "&" + SerializePair(p) == "&label=Views"
  {
    SeparatedPair(p, "&label=Views");
  }

  lemma ColorPiece(p: Pair)
    requires p == Pair("color", "0d6efd")
    ensures "&" + SerializePair(p) == "&color=0d6efd"
  {
    SeparatedPair(p, "&color=0d6efd");
  }

  lemma FontSizePiece(p: Pair)
    requires p == Pair("fontSize", "12")
    ensures "&" + SerializePair(p) == "&fontSize=12"
  {
    SeparatedPair(p, "&fontSize=12");
  }

  lemma UrlPiece(p: Pair, encoded: string)
    requires p.name == "url" && Encode(p.value) == encoded
    ensures SerializePair(p) == "url=" + encoded
  {
    EncodePlain(p.name);
    PairText(p, "url", encoded);
    assert "url" + "=" == "url=";
  }

  lemma ExampleSerialize(ps: seq<Pair>, url: string, encoded: string)
    requires |ps| == 4
    requires ps[0] == Pair("url", url) && Encode(url) == encoded
    requires ps[1] == Pair("label", "Views")
    requires ps[2] == Pair("color", "0d6efd")
    requires ps[3] == Pair("fontSize", "12")
    ensures Serialize(ps) == "url=" + encoded + "&label=Views" + "&color=0d6efd" + "&fontSize=12"
  {
    SerializeFour(ps);
    UrlPiece(ps[0], encoded);
    LabelPiece(ps[1]);
    ColorPiece(ps[2]);
    FontSizePiece(ps[3]);
    JoinExample(Serialize(ps), SerializePair(ps[0]), SerializePair(ps[1]), SerializePair(ps[2]), SerializePair(ps[3]),
      "&label=Views", "&color=0d6efd", "&fontSize=12");
  }

  /** The form the component mounts with, once `https://github.com` is
      typed as the tracked URL, gives the query the standard's serializer
      prescribes for these values: `url=https%3A%2F%2Fgithub.com` followed by
      `&label=Views&color=0d6efd&fontSize=12`. The URL and its encoding are
      named piece by piece: `https`, `:`, `/` and `github.com`, and the
      escapes `%3A` and `%2F`. */
  lemma GithubExampleQuery(f: BadgeForm, scheme: string, colon: string, slash: string, host: string,
                           pctColon: string, pctSlash: string)
    requires scheme == "https" && colon == ":" && slash == "/" && host == "github.com"
    requires pctColon == "%3A" && pctSlash == "%2F"
    requires f == Initial.(url := scheme + colon + slash + slash + host)
    ensures QueryOf(Derive(f, true).value.imageUrl)
      == "url=" + (scheme + pctColon + pctSlash + pctSlash + host) + "&label=Views" + "&color=0d6efd" + "&fontSize=12"
  {
    DerivedQueryText(f, true);
    EncodeGithubUrl(scheme, colon, slash, host, pctColon, pctSlash);
    ExamplePairs(f);
    ExampleSerialize(QueryPairs(f), f.url, scheme + pctColon + pctSlash + pctSlash + host);
  }
}
