/** The URL merger: the effect that recomputes `transformedUrl` whenever the
    options or the image URL change. The text before the first `?` is kept,
    the text between the first and the second `?` is parsed as a query, every
    `tr` pair is deleted and `tr` is set to the transformation string without
    its `tr:` prefix. With no transformation string, or no URL, the URL is
    used as it is. */
module Merge {
  import opened Options
  import opened Strings
  import opened Encoder
  import opened Query

  /** `imageUrl.split("?")[0]`: the URL up to its first `?`. */
  function CleanPart(url: string): (r: string)
    ensures '?' !in r
    ensures |r| <= |url| && url[..|r|] == r
    ensures |r| < |url| ==> url[|r|] == '?'
  {
    Split(url, '?')[0]
  }

  /** `imageUrl.split("?")[1] || ""`: the text between the first and the
      second `?`, or `""` when there is no `?`. */
  function QueryPart(url: string): (r: string)
    ensures '?' !in r
    ensures '?' !in url ==> r == ""
  {
    var parts := Split(url, '?');
    if |parts| > 1 then parts[1] else ""
  }

  /** The pairs of the merged query: the parsed pairs after `delete("tr")`
      and `set("tr", value)`. */
  function MergedPairs(url: string, ts: string, dec: string -> string): seq<Pair>
  {
    SetPair(Without(Parse(QueryPart(url), dec), "tr"), "tr", RemoveFirst(ts, "tr:"))
  }

  /** The URL the effect stores for the URL `url` and the transformation
      string `ts`. */
  function Merge(url: string, ts: string, enc: string -> string, dec: string -> string): (r: string)
    ensures ts == "" || url == "" ==> r == url
  {
    if ts != "" && url != "" then CleanPart(url) + "?" + Serialize(MergedPairs(url, ts, dec), enc)
    else url
  }

  /** The effect body: it encodes the options, and when both the string and
      the URL are non-empty rebuilds the query through a `URLSearchParams`. */
  method ComputeTransformedUrl(imageUrl: string, transformations: Params,
                               enc: string -> string, dec: string -> string)
    returns (transformedUrl: string)
    ensures transformedUrl == Merge(imageUrl, Encode(transformations), enc, dec)
  {
    var transformString := GenerateTransformationString(transformations);
    if transformString != "" && imageUrl != "" {
      var parts := Split(imageUrl, '?');
      var cleanUrl := parts[0];
      var urlParams := new SearchParams(if |parts| > 1 then parts[1] else "", dec);
      urlParams.Delete("tr");
      urlParams.Set("tr", RemoveFirst(transformString, "tr:"));
      var query := urlParams.ToString(enc);
      transformedUrl := cleanUrl + "?" + query;
    } else {
      transformedUrl := imageUrl;
    }
  }

  /** The merged query holds the original pairs not named `tr`, in their
      order, followed by exactly one `tr` pair carrying the transformation
      string without its prefix. */
  lemma MergedPairsShape(url: string, ts: string, dec: string -> string)
    ensures MergedPairs(url, ts, dec)
         == Without(Parse(QueryPart(url), dec), "tr") + [("tr", RemoveFirst(ts, "tr:"))]
    ensures Named(MergedPairs(url, ts, dec), "tr") == 1
    ensures Without(MergedPairs(url, ts, dec), "tr") == Without(Parse(QueryPart(url), dec), "tr")
  {
    var kept := Without(Parse(QueryPart(url), dec), "tr");
    SetPairEffect(kept, "tr", RemoveFirst(ts, "tr:"));
    WithoutIdempotent(Parse(QueryPart(url), dec), "tr");
  }

  /** With a transformation string and a URL, the result is the URL up to
      its first `?`, a `?`, then the serialized kept pairs and the `tr` pair
      last. */
  lemma MergeShape(url: string, ts: string, enc: string -> string, dec: string -> string)
    requires ts != "" && url != ""
    ensures Merge(url, ts, enc, dec)
         == CleanPart(url) + "?" + Serialize(Without(Parse(QueryPart(url), dec), "tr") + [("tr", RemoveFirst(ts, "tr:"))], enc)
  {
    MergedPairsShape(url, ts, dec);
  }

  /** The serialization ends with the encoded `tr` pair, after a `&` when
      other pairs are kept. */
  lemma MergeEndsWithTransformation(url: string, ts: string, enc: string -> string, dec: string -> string)
    requires ts != "" && url != ""
    ensures var kept := Without(Parse(QueryPart(url), dec), "tr");
            var last := enc("tr") + "=" + enc(RemoveFirst(ts, "tr:"));
            Merge(url, ts, enc, dec)
            == CleanPart(url) + "?" + (if kept == [] then last else Serialize(kept, enc) + "&" + last)
  {
    var kept := Without(Parse(QueryPart(url), dec), "tr");
    var x := ("tr", RemoveFirst(ts, "tr:"));
    MergeShape(url, ts, enc, dec);
    FieldsSnoc(kept, x, enc);
    JoinSnoc(Fields(kept, enc), enc(x.0) + "=" + enc(x.1), "&");
  }

  /** Serializing one more pair adds its field at the end. */
  lemma FieldsSnoc(ps: seq<Pair>, x: Pair, enc: string -> string)
    ensures Fields(ps + [x], enc) == Fields(ps, enc) + [enc(x.0) + "=" + enc(x.1)]
  {
  }

  /** Splitting `a + "?" + b` at `?`, when `a` has no `?`. */
  lemma SplitAtQuestion(a: string, b: string)
    requires '?' !in a
    ensures Split(a + "?" + b, '?') == [a] + Split(b, '?')
  {
    assert a + "?" + b == a + ['?'] + b;
    SplitAfter(a, '?', b);
  }

  /** The parts of a URL with one `?`. */
  lemma PartsOfOneQuestion(a: string, q: string)
    requires '?' !in a && '?' !in q
    ensures CleanPart(a + "?" + q) == a && QueryPart(a + "?" + q) == q
  {
    SplitAtQuestion(a, q);
    assert Split(q, '?') == [q];
  }

  /** The parts of a URL with a second `?`: what follows it is in neither. */
  lemma PartsOfTwoQuestions(a: string, q: string, rest: string)
    requires '?' !in a && '?' !in q
    ensures CleanPart(a + "?" + q + "?" + rest) == a && QueryPart(a + "?" + q + "?" + rest) == q
  {
    assert a + "?" + q + "?" + rest == a + "?" + (q + "?" + rest);
    SplitAtQuestion(a, q + "?" + rest);
    SplitAtQuestion(q, rest);
  }

  /** Only the text between the first and the second `?` is parsed: with a
      transformation string, whatever follows a second `?` is dropped. */
  lemma MergeQuerySegment(a: string, q: string, rest: string, ts: string,
                          enc: string -> string, dec: string -> string)
    requires '?' !in a && '?' !in q && ts != ""
    ensures Merge(a + "?" + q + "?" + rest, ts, enc, dec) == Merge(a + "?" + q, ts, enc, dec)
  {
    var long, short := a + "?" + q + "?" + rest, a + "?" + q;
    assert long[|a|] == '?' && short[|a|] == '?';
    PartsOfOneQuestion(a, q);
    PartsOfTwoQuestions(a, q, rest);
    assert MergedPairs(long, ts, dec) == MergedPairs(short, ts, dec);
  }

  /** A URL without a query gets one holding only the `tr` pair. */
  lemma MergeNoQuery(url: string, ts: string, enc: string -> string, dec: string -> string)
    requires ts != "" && url != "" && '?' !in url
    ensures Merge(url, ts, enc, dec) == url + "?" + enc("tr") + "=" + enc(RemoveFirst(ts, "tr:"))
  {
    assert Split(url, '?') == [url];
    MergeEndsWithTransformation(url, ts, enc, dec);
  }

  /** For the encoder's output, the `tr` value is the comma-joined tokens. */
  lemma TransformationValue(p: Params)
    requires Encode(p) != ""
    ensures RemoveFirst(Encode(p), "tr:") == Join(Tokens(p), ",")
  {
    RemoveFirstPrefix("tr:", Join(Tokens(p), ","));
  }

  /** With a codec that round-trips, merging a second string into a merged
      URL gives the URL that merging it into the original gives: the output
      always carries the latest string once and nothing of earlier ones. */
  lemma MergeReplaces(url: string, ts1: string, ts2: string,
                      enc: string -> string, dec: string -> string)
    requires Inverse(enc, dec)
    requires ts1 != "" && ts2 != "" && url != ""
    ensures Merge(Merge(url, ts1, enc, dec), ts2, enc, dec) == Merge(url, ts2, enc, dec)
  {
    var clean, ps := CleanPart(url), MergedPairs(url, ts1, dec);
    var s := Serialize(ps, enc);
    SerializeNoQuestion(ps, enc, dec);
    SplitAtQuestion(clean, s);
    assert Split(s, '?') == [s];
    ParseSerialize(ps, enc, dec);
    MergedPairsShape(url, ts1, dec);
  }

  /** A serialization made by such a codec holds no `?`. */
  lemma {:induction false} SerializeNoQuestion(ps: seq<Pair>, enc: string -> string, dec: string -> string)
    requires Inverse(enc, dec)
    ensures '?' !in Serialize(ps, enc)
  {
    var fs := Fields(ps, enc);
    forall i | 0 <= i < |fs|
      ensures '?' !in fs[i]
    {
      assert '?' !in enc(ps[i].0) && '?' !in enc(ps[i].1);
    }
    JoinNoChar(fs, "&", '?');
  }

  /** After `resetTransformations` every option is absent, the badge count
      is zero, the transformation string is empty and the URL is used as it
      is. */
  lemma ResetClears(url: string, enc: string -> string, dec: string -> string)
    ensures forall k :: !Present(Reset(), k)
    ensures TransformationCount(Reset()) == 0
    ensures Encode(Reset()) == ""
    ensures Merge(url, Encode(Reset()), enc, dec) == url
  {
    CountVsTokens(Reset());
  }
}
