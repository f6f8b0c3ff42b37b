/**
 * The decisions the backend's cluster endpoints make on what the Kubernetes
 * and OpenShift clients return: which version strings to report and which
 * dashboard URLs to advertise. The fetched objects are inputs.
 */
module ClusterEndpoints {
  import opened Wrappers
  import Strings

  /** HTTP status of every error reply here. */
  const InternalServerError := 500

  const Unknown := "Unknown"
  const VersionLabel := "version"
  const ReleaseAnnotation := "tekton.dev/release"
  const ControllerImage := "pipeline/cmd/controller"

  /** What the handlers read of a Deployment: its labels, its pod template's annotations and container images. */
  datatype Deployment = Deployment(labels: map<string, string>, templateAnnotations: map<string, string>,
                                   containerImages: seq<string>)

  /** An OpenShift Route, reduced to `spec.host`. */
  datatype Route = Route(host: string)

  /** An Ingress, reduced to the `host` of each of its rules, in order. */
  datatype Ingress = Ingress(ruleHosts: seq<string>)

  /** One entry of the endpoints reply: `{type, url}`. */
  datatype Endpoint = Endpoint(kind: string, url: string)

  /** A Go runtime panic: an index out of range. */
  datatype Panic = IndexOutOfRange

  /** Go map indexing: a missing key reads as the empty string. */
  function Lookup(m: map<string, string>, k: string): (v: string)
    ensures k !in m ==> v == ""
    ensures k in m ==> v == m[k]
  {
    if k in m then m[k] else ""
  }

  /**
   * `GetIngress`: the host of the first rule of the `tekton-dashboard`
   * Ingress, when the fetch (`None` on error) succeeded and that host is
   * non-empty; later rules are never consulted.
   */
  function GetIngress(ingress: Option<Ingress>): (r: Result<string, int>)
    ensures r.Ok? <==> ingress.Some? && |ingress.value.ruleHosts| > 0 && ingress.value.ruleHosts[0] != ""
    ensures r.Ok? ==> r.value == ingress.value.ruleHosts[0]
    ensures r.Err? ==> r.error == InternalServerError
  {
    if ingress.None? then Err(InternalServerError)
    else if |ingress.value.ruleHosts| > 0 && ingress.value.ruleHosts[0] != "" then Ok(ingress.value.ruleHosts[0])
    else Err(InternalServerError)
  }

  /** The Route contributes an endpoint: fetched, with a non-empty host. */
  predicate HasRouteHost(route: Option<Route>)
  {
    route.Some? && route.value.host != ""
  }

  /**
   * `GetEndpoints`: the Route endpoint, then the Ingress endpoint, each only
   * when present; an empty list is answered with an error.
   */
  method GetEndpoints(route: Option<Route>, ingress: Option<Ingress>) returns (r: Result<seq<Endpoint>, int>)
    ensures r.Err? <==> !HasRouteHost(route) && GetIngress(ingress).Err?
    ensures r.Err? ==> r.error == InternalServerError
    ensures r.Ok? ==>
      |r.value| == (if HasRouteHost(route) then 1 else 0) + (if GetIngress(ingress).Ok? then 1 else 0)
    ensures r.Ok? && HasRouteHost(route) ==> r.value[0] == Endpoint("Route", route.value.host)
    ensures r.Ok? && GetIngress(ingress).Ok? ==>
      r.value[|r.value| - 1] == Endpoint("Ingress", GetIngress(ingress).value)
  {
    var responses: seq<Endpoint> := [];
    if route.Some? {
      if route.value.host != "" {
        responses := responses + [Endpoint("Route", route.value.host)];
      }
    }
    if ingress.Some? {
      if |ingress.value.ruleHosts| > 0 {
        if ingress.value.ruleHosts[0] != "" {
          responses := responses + [Endpoint("Ingress", ingress.value.ruleHosts[0])];
        }
      }
    }
    if |responses| != 0 {
      r := Ok(responses);
    } else {
      r := Err(InternalServerError);
    }
  }

  /**
   * `GetDashboardVersion`: the `version` label of the LAST listed deployment
   * (every iteration overwrites it, with "" when the label is missing), or
   * "Unknown" when that is empty or nothing was listed.
   */
  method GetDashboardVersion(deployments: seq<Deployment>) returns (reply: string)
    ensures reply != ""
    ensures deployments == [] ==> reply == Unknown
    ensures deployments != [] ==>
      var last := Lookup(deployments[|deployments| - 1].labels, VersionLabel);
      reply == if last == "" then Unknown else last
  {
    var version := "";
    for i := 0 to |deployments|
      invariant i == 0 ==> version == ""
      invariant i > 0 ==> version == Lookup(deployments[i - 1].labels, VersionLabel)
    {
      version := Lookup(deployments[i].labels, VersionLabel);
    }
    if version == "" {
      reply := Unknown;
    } else {
      reply := version;
    }
  }

  /**
   * The tag of a controller image: the text after the first ':' up to and
   * including the next ':' (`SplitAfter` keeps separators), cut at the first
   * '@'. Without any ':' the second piece does not exist.
   */
  function ImageTag(image: string): (r: Result<string, Panic>)
    ensures r.Err? <==> ':' !in image
    ensures r.Ok? ==> '@' !in r.value
  {
    var s := Strings.SplitAfter(image, ':');
    if |s| < 2 then Err(IndexOutOfRange)
    else
      Strings.SplitPiecesAreClean(s[1], '@');
      Ok(Strings.Split(s[1], '@')[0])
  }

  /** For `repo:tag@digest` with no ':' in repo or tag and no '@' in tag, the tag is found. */
  lemma ImageTagWithDigest(repo: string, tag: string, digest: string)
    requires ':' !in repo && ':' !in tag && '@' !in tag
    ensures ImageTag(repo + ":" + tag + "@" + digest) == Ok(tag)
  {
    var rest := tag + ['@'] + digest;
    assert repo + ":" + tag + "@" + digest == repo + [':'] + rest;
    Strings.SplitAfterFirst(repo, ':', rest);
    var s := Strings.SplitAfter(repo + [':'] + rest, ':');
    assert s[1] == Strings.SplitAfter(rest, ':')[0];
    var head := Strings.SplitAfter(digest, ':')[0];
    assert rest == (tag + ['@']) + digest;
    Strings.SplitAfterHead(tag + ['@'], ':', digest);
    assert s[1] == tag + ['@'] + head;
    Strings.SplitFirst(tag, '@', head);
  }

  /** For `repo:tag` with no ':' in repo or tag and no '@' in tag, the tag is found. */
  lemma ImageTagWithoutDigest(repo: string, tag: string)
    requires ':' !in repo && ':' !in tag && '@' !in tag
    ensures ImageTag(repo + ":" + tag) == Ok(tag)
  {
    assert repo + ":" + tag == repo + [':'] + tag;
    Strings.SplitAfterFirst(repo, ':', tag);
  }

  /**
   * The parsed value in general. After the first ':' of the image, the text
   * runs to the first ':' or '@'. A ':' is kept at the end of the result,
   * because `SplitAfter` keeps separators. An '@' is dropped.
   */
  lemma ImageTagValue(repo: string, x: string, c: char, y: string)
    requires ':' !in repo && ':' !in x && '@' !in x && (c == ':' || c == '@')
    ensures ImageTag(repo + [':'] + x + [c] + y) == Ok(if c == ':' then x + [':'] else x)
  {
    var rest := x + [c] + y;
    assert repo + [':'] + x + [c] + y == repo + [':'] + rest;
    Strings.SplitAfterFirst(repo, ':', rest);
    var s := Strings.SplitAfter(repo + [':'] + rest, ':');
    assert s[1] == Strings.SplitAfter(rest, ':')[0];
    if c == ':' {
      Strings.SplitAfterFirst(x, ':', y);
      assert s[1] == x + [':'];
      assert '@' !in x + [':'];
    } else {
      var head := Strings.SplitAfter(y, ':')[0];
      assert rest == (x + ['@']) + y;
      Strings.SplitAfterHead(x + ['@'], ':', y);
      assert s[1] == x + ['@'] + head;
      Strings.SplitFirst(x, '@', head);
    }
  }

  /** After the first ':', text holding neither ':' nor '@' is the parsed value as it stands. */
  lemma ImageTagRemainder(repo: string, b: string)
    requires ':' !in repo && ':' !in b && '@' !in b
    ensures ImageTag(repo + [':'] + b) == Ok(b)
  {
    Strings.SplitAfterFirst(repo, ':', b);
  }

  /**
   * A registry with a port: the first ':' is the port's. The reported
   * "version" is then the rest of the path up to and including the tag's ':'.
   */
  lemma ImageTagWithRegistryPort(host: string, path: string, tag: string)
    requires ':' !in host && ':' !in path && '@' !in path && ':' !in tag && '@' !in tag
    ensures ImageTag(host + ":" + path + ":" + tag) == Ok(path + ":")
  {
    assert host + ":" + path + ":" + tag == host + [':'] + path + [':'] + tag;
    ImageTagValue(host, path, ':', tag);
  }

  /** `localhost:5000/tektoncd/pipeline/cmd/controller:v0.10.0` reports `5000/tektoncd/pipeline/cmd/controller:`. */
  lemma ImageTagRegistryPortExample()
    ensures ImageTag("localhost" + ":" + "5000/tektoncd/" + "pipeline/cmd/controller" + ":" + "v0.10.0")
         == Ok("5000/tektoncd/" + "pipeline/cmd/controller" + ":")
  {
    var host, port, command, tag := "localhost", "5000/tektoncd/", "pipeline/cmd/controller", "v0.10.0";
    assert ':' !in host && ':' !in tag && '@' !in tag;
    assert ':' !in port && '@' !in port && ':' !in command && '@' !in command;
    var path := port + command;
    assert host + ":" + port + command + ":" + tag == host + ":" + path + ":" + tag;
    assert port + command + ":" == path + ":";
    ImageTagWithRegistryPort(host, path, tag);
  }

  /** The controller image `tektoncd/pipeline/cmd/controller:v0.10.0@sha256:x` reports `v0.10.0`. */
  lemma ImageTagExample()
    ensures ImageTag("tektoncd/" + "pipeline/cmd/controller" + ":" + "v0.10.0" + "@" + "sha256:x") == Ok("v0.10.0")
  {
    var owner, command, tag := "tektoncd/", "pipeline/cmd/controller", "v0.10.0";
    assert ':' !in owner && ':' !in command && ':' !in tag && '@' !in tag;
    ImageTagWithDigest(owner + command, tag, "sha256:x");
  }

  /**
   * The version one deployment yields in `GetPipelineVersion`: a non-empty
   * release annotation; else, for a controller image, its tag; else "".
   * Reading the image needs a container, parsing it a ':'.
   */
  function DeploymentPipelineVersion(d: Deployment): (r: Result<string, Panic>)
    ensures Lookup(d.templateAnnotations, ReleaseAnnotation) != "" ==>
      r == Ok(Lookup(d.templateAnnotations, ReleaseAnnotation))
    ensures r.Err? <==>
      Lookup(d.templateAnnotations, ReleaseAnnotation) == "" && (d.containerImages == [] || (Strings.Contains(d.containerImages[0], ControllerImage) && ':' !in d.containerImages[0]))
    ensures r.Ok? && Lookup(d.templateAnnotations, ReleaseAnnotation) == "" ==>
      r.value == if Strings.Contains(d.containerImages[0], ControllerImage) then ImageTag(d.containerImages[0]).value else ""
  {
    var release := Lookup(d.templateAnnotations, ReleaseAnnotation);
    if release != "" then Ok(release)
    else if d.containerImages == [] then Err(IndexOutOfRange)
    else if Strings.Contains(d.containerImages[0], ControllerImage) then ImageTag(d.containerImages[0])
    else Ok("")
  }

  /**
   * `GetPipelineVersion`: the version the LAST deployment yields (even ""),
   * "Unknown" when that is empty or nothing was listed; a deployment that
   * panics aborts the handler.
   */
  method GetPipelineVersion(deployments: seq<Deployment>) returns (reply: Result<string, Panic>)
    ensures reply.Err? <==> exists i :: 0 <= i < |deployments| && DeploymentPipelineVersion(deployments[i]).Err?
    ensures reply.Ok? ==> reply.value != ""
    ensures reply.Ok? && deployments == [] ==> reply.value == Unknown
    ensures reply.Ok? && deployments != [] ==>
      var last := DeploymentPipelineVersion(deployments[|deployments| - 1]).value;
      reply.value == if last == "" then Unknown else last
  {
    var version := "";
    for i := 0 to |deployments|
      invariant forall j :: 0 <= j < i ==> DeploymentPipelineVersion(deployments[j]).Ok?
      invariant i == 0 ==> version == ""
      invariant i > 0 ==> version == DeploymentPipelineVersion(deployments[i - 1]).value
    {
      var deployment := deployments[i];
      version := Lookup(deployment.templateAnnotations, ReleaseAnnotation);
      if version == "" {
        if |deployment.containerImages| == 0 {
          return Err(IndexOutOfRange);
        }
        var image := deployment.containerImages[0];
        if Strings.Contains(image, ControllerImage) {
          var s := Strings.SplitAfter(image, ':');
          if |s| < 2 {
            return Err(IndexOutOfRange);
          }
          var t := Strings.Split(s[1], '@');
          version := t[0];
        }
      }
    }
    if version == "" {
      reply := Ok(Unknown);
    } else {
      reply := Ok(version);
    }
  }
}
