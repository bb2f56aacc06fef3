/**
 * `urlparse_json`: one captured URL becomes a one-entry dictionary from its
 * path template to the typed query parameters and the path parameters.
 */
module UrlTemplate {
  import opened Wrappers
  import opened OrderedMaps
  import opened UrlSplit
  import opened QueryStrings
  import opened ValueProbes
  import opened Uuids

  /** The `{query_parameters, path_parameters}` record kept for one template. */
  datatype EndpointInfo = EndpointInfo(queryParameters: Entries<ParamInfo>, pathParameters: Entries<ParamInfo>)

  const IdPlaceholder: string := "{id}"

  /** The loop over `parse_qs(query)` that types each parameter. */
  function QueryParameters(query: string): (r: Entries<ParamInfo>)
    ensures UniqueKeys(r)
    ensures Keys(r) == FirstSeen(Keys(ParseQsl(query)))
    ensures forall i :: 0 <= i < |r| ==> r[i].1 == InferParam(ValuesFor(ParseQsl(query), r[i].0))
  {
    var grouped := ParseQs(query);
    MapValues(grouped, InferParam)
  }

  /** The template and path parameters for a path: its first UUID, if any, becomes `{id}`. */
  function PathTemplate(path: string): (r: (string, Entries<ParamInfo>))
    ensures FindUuid(path).None? ==> r == (path, [])
    ensures FindUuid(path).Some? ==>
              var uuid := path[FindUuid(path).value..FindUuid(path).value + UuidLength];
              && IsUuid(uuid)
              && r.0 == ReplaceAll(path, uuid, IdPlaceholder)
              && (forall i: nat :: !OccursAt(r.0, uuid, i))
              && r.1 == [("id", ParamInfo(StringType, Text(uuid)))]
  {
    match FindUuid(path)
    case None => (path, [])
    case Some(start) =>
      var uuid := path[start..start + UuidLength];
      ReplaceAllRemoves(path, uuid, IdPlaceholder);
      (ReplaceAll(path, uuid, IdPlaceholder), [("id", ParamInfo(StringType, Text(uuid)))])
  }

  /**
   * `urlparse_json(url)`: a dictionary with the template as its one key. The
   * query parameters are the names of the query, each once, in first-seen
   * order, typed from all of their values; a path without a UUID is its own
   * template with no path parameters, and a path with one has every
   * occurrence of its leftmost UUID replaced by `{id}` and one `id`
   * parameter whose example is that UUID.
   */
  function UrlParseJson(url: string): (r: Entries<EndpointInfo>)
    ensures |r| == 1 && UniqueKeys(r)
    ensures var pairs := ParseQsl(SplitUrl(url).query);
            var qp := r[0].1.queryParameters;
            && UniqueKeys(qp)
            && Keys(qp) == FirstSeen(Keys(pairs))
            && forall i :: 0 <= i < |qp| ==> qp[i].1 == InferParam(ValuesFor(pairs, qp[i].0))
    ensures var path := SplitUrl(url).path;
            FindUuid(path).None? ==> r[0].0 == path && r[0].1.pathParameters == []
    ensures var path := SplitUrl(url).path;
            FindUuid(path).Some? ==>
              var uuid := path[FindUuid(path).value..FindUuid(path).value + UuidLength];
              && IsUuid(uuid)
              && r[0].0 == ReplaceAll(path, uuid, IdPlaceholder)
              && (forall i: nat :: !OccursAt(r[0].0, uuid, i))
              && r[0].1.pathParameters == [("id", ParamInfo(StringType, Text(uuid)))]
  {
    var parts := SplitUrl(url);
    var template := PathTemplate(parts.path);
    [(template.0, EndpointInfo(QueryParameters(parts.query), template.1))]
  }

  /**
   * The template keeps enough to recover the path: putting the example UUID
   * back in place of `{id}` gives the original path, as long as the path had
   * no `{` of its own.
   */
  lemma TemplateRestoresPath(url: string)
    requires '{' !in SplitUrl(url).path
    ensures var r := UrlParseJson(url)[0];
            var path := SplitUrl(url).path;
            && (r.1.pathParameters == [] ==> r.0 == path)
            && (r.1.pathParameters != [] ==>
                  r.1.pathParameters[0].1.example.Text? &&
                  ReplaceAll(r.0, IdPlaceholder, r.1.pathParameters[0].1.example.text) == path)
  {
    var path := SplitUrl(url).path;
    match FindUuid(path)
    case None =>
    case Some(start) =>
      var uuid := path[start..start + UuidLength];
      ReplaceAllInverse(path, uuid, IdPlaceholder);
  }

  /**
   * A URL assembled from well-formed parts and an encoded list of query pairs
   * yields one query parameter per distinct name, in first-seen order, typed
   * from all of that name's values.
   */
  lemma QueryParametersOfEncoded(p: UrlParts, pairs: seq<(string, string)>)
    requires WellFormed(p) && p.query == EncodeQuery(pairs)
    requires forall i :: 0 <= i < |pairs| ==> pairs[i].1 != ""
    ensures var qp := UrlParseJson(Compose(p))[0].1.queryParameters;
            && Keys(qp) == FirstSeen(Keys(pairs))
            && forall i :: 0 <= i < |qp| ==> qp[i].1 == InferParam(ValuesFor(pairs, qp[i].0))
  {
    ComposeSplit(p);
    ParseQslEncode(pairs);
  }
}
