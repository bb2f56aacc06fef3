/**
 * `add_api_component` and `generate_openapi_spec`: the document root with
 * its fixed header, and one GET operation per template whose parameters are
 * the path parameters (required) followed by the query parameters.
 */
module OpenApi {
  import opened Wrappers
  import opened OrderedMaps
  import opened ValueProbes
  import opened UrlTemplate

  datatype Location = InPath | InQuery

  /**
   * One entry of an operation's `parameters` list. `required` is
   * `Some(true)` for a path parameter and None where the key is absent.
   */
  datatype Parameter = Parameter(
    name: string,
    location: Location,
    required: Option<bool>,
    schemaType: string,
    description: string,
    example: Example)

  datatype Response = Response(description: string)

  datatype Operation = Operation(parameters: seq<Parameter>, responses: Entries<Response>)

  /** The `{get: ...}` object stored under a template in `paths`. */
  datatype PathItem = PathItem(get: Operation)

  const SuccessResponses: Entries<Response> := [("200", Response("Successful response"))]

  function Description(name: string): string
  {
    "The " + name + " parameter"
  }

  function PathParameter(entry: (string, ParamInfo)): Parameter
  {
    Parameter(entry.0, InPath, Some(true), TypeName(entry.1.paramType), Description(entry.0), entry.1.example)
  }

  function QueryParameter(entry: (string, ParamInfo)): Parameter
  {
    Parameter(entry.0, InQuery, None, TypeName(entry.1.paramType), Description(entry.0), entry.1.example)
  }

  /** The GET operation `add_api_component` leaves under a template, given its parameter list. */
  function Item(parameters: seq<Parameter>): PathItem
  {
    PathItem(Operation(parameters, SuccessResponses))
  }

  /** The entries the first loop of `add_api_component` appends, one per path parameter. */
  function PathParameterList(pp: Entries<ParamInfo>): (ps: seq<Parameter>)
    ensures |ps| == |pp|
    ensures forall i :: 0 <= i < |pp| ==> ps[i] == PathParameter(pp[i])
  {
    if |pp| == 0 then [] else PathParameterList(pp[..|pp| - 1]) + [PathParameter(pp[|pp| - 1])]
  }

  /** The entries the second loop appends, one per query parameter. */
  function QueryParameterList(qp: Entries<ParamInfo>): (ps: seq<Parameter>)
    ensures |ps| == |qp|
    ensures forall i :: 0 <= i < |qp| ==> ps[i] == QueryParameter(qp[i])
  {
    if |qp| == 0 then [] else QueryParameterList(qp[..|qp| - 1]) + [QueryParameter(qp[|qp| - 1])]
  }

  /** The parameter list rendered for an endpoint: path parameters first, then query parameters. */
  function RenderParameters(info: EndpointInfo): (ps: seq<Parameter>)
    ensures |ps| == |info.pathParameters| + |info.queryParameters|
  {
    PathParameterList(info.pathParameters) + QueryParameterList(info.queryParameters)
  }

  function RenderItem(info: EndpointInfo): (r: PathItem)
    ensures r.get.responses == SuccessResponses
    ensures |r.get.parameters| == |info.pathParameters| + |info.queryParameters|
  {
    Item(RenderParameters(info))
  }

  /**
   * What a rendered operation promises: the 200 response, path entries
   * (required) before query entries (no `required` key), names in map order.
   */
  lemma RenderItemShape(info: EndpointInfo)
    ensures var op := RenderItem(info).get;
            var n := |info.pathParameters|;
            && op.responses == [("200", Response("Successful response"))]
            && |op.parameters| == n + |info.queryParameters|
            && (forall i :: 0 <= i < n ==>
                  op.parameters[i].location == InPath && op.parameters[i].required == Some(true))
            && (forall i :: n <= i < |op.parameters| ==>
                  op.parameters[i].location == InQuery && op.parameters[i].required == None)
            && (forall i :: 0 <= i < |op.parameters| ==>
                  op.parameters[i].name == (Keys(info.pathParameters) + Keys(info.queryParameters))[i])
  {
    var op := RenderItem(info).get;
    var n := |info.pathParameters|;
    forall i | n <= i < |op.parameters|
      ensures op.parameters[i].location == InQuery && op.parameters[i].required == None
      ensures op.parameters[i].name == (Keys(info.pathParameters) + Keys(info.queryParameters))[i]
    {
      assert op.parameters[n + (i - n)] == QueryParameter(info.queryParameters[i - n]);
    }
  }

  /** The `paths` dictionary after adding every template of `urlJson` in order. */
  function RenderPaths(urlJson: Entries<EndpointInfo>): (r: Entries<PathItem>)
    ensures UniqueKeys(r)
    ensures UniqueKeys(urlJson) ==> Keys(r) == Keys(urlJson)
  {
    MapValues(urlJson, RenderItem)
  }

  /** The keys of `paths` are the templates, in order; each holds its rendered operation. */
  lemma RenderPathsKeys(urlJson: Entries<EndpointInfo>)
    requires UniqueKeys(urlJson)
    ensures Keys(RenderPaths(urlJson)) == Keys(urlJson)
    ensures forall k :: k in Keys(urlJson) ==>
              Lookup(RenderPaths(urlJson), k) == Some(RenderItem(Lookup(urlJson, k).value))
  {
    var r := RenderPaths(urlJson);
    forall k | k in Keys(urlJson)
      ensures Lookup(r, k) == Some(RenderItem(Lookup(urlJson, k).value))
    {
      var i := IndexOfKey(urlJson, k).value;
      assert IndexOfKey(r, k) == Some(i);
    }
  }

  /** Rendering one more path entry appends its parameter. */
  lemma PathParameterListStep(pp: Entries<ParamInfo>, i: nat)
    requires i < |pp|
    ensures PathParameterList(pp[..i + 1]) == PathParameterList(pp[..i]) + [PathParameter(pp[i])]
  {
    assert pp[..i + 1][..i] == pp[..i];
  }

  /** Rendering one more query entry appends its parameter. */
  lemma QueryParameterListStep(qp: Entries<ParamInfo>, i: nat)
    requires i < |qp|
    ensures QueryParameterList(qp[..i + 1]) == QueryParameterList(qp[..i]) + [QueryParameter(qp[i])]
  {
    assert qp[..i + 1][..i] == qp[..i];
  }

  /** Adding one more template to `paths` extends the rendering by that template. */
  lemma RenderPathsStep(urlJson: Entries<EndpointInfo>, i: nat)
    requires i < |urlJson|
    ensures RenderPaths(urlJson[..i + 1]) == Put(RenderPaths(urlJson[..i]), urlJson[i].0, RenderItem(urlJson[i].1))
  {
    assert urlJson[..i + 1][..i] == urlJson[..i];
  }

  lemma AppendAssociates<T>(a: seq<T>, b: seq<T>, c: seq<T>)
    ensures a + b + c == a + (b + c)
  {
  }

  /** The document root `generate_openapi_spec` builds and fills in place. */
  class OpenApiSpec {
    const openapi: string
    const title: string
    const version: string
    var paths: Entries<PathItem>

    constructor ()
      ensures openapi == "3.0.0" && title == "NFL API" && version == "1.0.0"
      ensures paths == []
    {
      openapi := "3.0.0";
      title := "NFL API";
      version := "1.0.0";
      paths := [];
    }

    /**
     * `add_api_component(spec, path, info)`: (re)sets the entry for `path` to
     * an operation with no parameters, then appends the path parameters and
     * the query parameters one at a time.
     */
    method AddApiComponent(path: string, info: EndpointInfo)
      modifies this
      ensures paths == Put(old(paths), path, RenderItem(info))
    {
      var base := paths;
      paths := Put(base, path, Item([]));
      var parameters: seq<Parameter> := [];
      var pp, qp := info.pathParameters, info.queryParameters;
      var i := 0;
      while i < |pp|
        invariant 0 <= i <= |pp|
        invariant parameters == PathParameterList(pp[..i])
        invariant paths == Put(base, path, Item(parameters))
      {
        var before := parameters;
        parameters := parameters + [PathParameter(pp[i])];
        PathParameterListStep(pp, i);
        PutPut(base, path, Item(before), Item(parameters));
        paths := Put(paths, path, Item(parameters));
        i := i + 1;
      }
      assert pp[..i] == pp;
      var pathPart := parameters;
      assert parameters == pathPart + QueryParameterList(qp[..0]);
      i := 0;
      while i < |qp|
        invariant 0 <= i <= |qp|
        invariant parameters == pathPart + QueryParameterList(qp[..i])
        invariant paths == Put(base, path, Item(parameters))
      {
        var before := parameters;
        parameters := parameters + [QueryParameter(qp[i])];
        QueryParameterListStep(qp, i);
        AppendAssociates(pathPart, QueryParameterList(qp[..i]), [QueryParameter(qp[i])]);
        PutPut(base, path, Item(before), Item(parameters));
        paths := Put(paths, path, Item(parameters));
        i := i + 1;
      }
      assert qp[..i] == qp;
    }
  }

  /**
   * `generate_openapi_spec(url_json)` up to serialisation: a fresh document
   * with the fixed header and one rendered operation per template.
   */
  method GenerateOpenApiSpec(urlJson: Entries<EndpointInfo>) returns (spec: OpenApiSpec)
    ensures fresh(spec)
    ensures spec.openapi == "3.0.0" && spec.title == "NFL API" && spec.version == "1.0.0"
    ensures spec.paths == RenderPaths(urlJson)
  {
    spec := new OpenApiSpec();
    var i := 0;
    while i < |urlJson|
      invariant 0 <= i <= |urlJson|
      invariant spec.paths == RenderPaths(urlJson[..i])
    {
      RenderPathsStep(urlJson, i);
      spec.AddApiComponent(urlJson[i].0, urlJson[i].1);
      i := i + 1;
    }
    assert urlJson[..i] == urlJson;
  }
}
