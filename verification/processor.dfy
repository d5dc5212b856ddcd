/** The fully qualified name of the remote document processor, built by a
    template from the project id, location and processor id. The template
    interpolates whatever the configuration holds, including a missing
    value, which JavaScript renders as the text `undefined`. */
module Processor {
  import opened Wrappers
  import opened Text

  /** The three configuration values that identify a processor. */
  datatype Identity = Identity(projectId: string, location: string, processorId: string)

  /** The `/`-separated parts of a processor name, in order. */
  function NameParts(id: Identity): seq<string> {
    ["projects", id.projectId, "locations", id.location, "processors", id.processorId]
  }

  /** No component contains a slash, so the name's parts stay apart. */
  predicate SlashFree(id: Identity) {
    '/' !in id.projectId && '/' !in id.location && '/' !in id.processorId
  }

  /** `projects/${projectId}/locations/${location}/processors/${processorId}`:
      the name parts joined by `/`, for every input. When no component has a
      slash, splitting the name at `/` gives the parts back. */
  function ProcessorName(id: Identity): (name: string)
    ensures name == Join(NameParts(id), '/')
    ensures SlashFree(id) ==> Split(name, '/') == NameParts(id)
  {
    var name := "projects/" + id.projectId + "/locations/" + id.location + "/processors/" + id.processorId;
    JoinSixParts(NameParts(id));
    if SlashFree(id) then
      SplitJoin(NameParts(id), '/');
      name
    else
      name
  }

  /** Joining six parts puts a separator between each neighbouring pair. */
  lemma JoinSixParts(p: seq<string>)
    requires |p| == 6
    ensures Join(p, '/') == p[0] + "/" + p[1] + "/" + p[2] + "/" + p[3] + "/" + p[4] + "/" + p[5]
  {
    assert p[..5][..4] == p[..4];
    assert p[..4][..3] == p[..3];
    assert p[..3][..2] == p[..2];
    assert p[..2][..1] == p[..1];
    assert Join(p[..2], '/') == p[0] + "/" + p[1];
    assert Join(p[..3], '/') == p[0] + "/" + p[1] + "/" + p[2];
    assert Join(p[..4], '/') == p[0] + "/" + p[1] + "/" + p[2] + "/" + p[3];
    assert Join(p[..5], '/') == p[0] + "/" + p[1] + "/" + p[2] + "/" + p[3] + "/" + p[4];
  }

  /** Reads the identity back out of a processor name, if it has the shape
      the template produces with slash-free components. */
  function ParseProcessorName(name: string): Option<Identity> {
    var parts := Split(name, '/');
    if |parts| == 6 && parts[0] == "projects" && parts[2] == "locations" && parts[4] == "processors"
    then Some(Identity(parts[1], parts[3], parts[5]))
    else None
  }

  /** Parsing undoes the template for slash-free identities, so such
      identities get distinct names. */
  lemma ParseProcessorNameRoundTrip(id: Identity)
    requires SlashFree(id)
    ensures ParseProcessorName(ProcessorName(id)) == Some(id)
  {
  }

  /** Every name that parses is the template's output for what it parses to. */
  lemma ProcessorNameOfParse(name: string)
    requires ParseProcessorName(name).Some?
    ensures ProcessorName(ParseProcessorName(name).value) == name
  {
    var parts := Split(name, '/');
    JoinSplit(name, '/');
    assert NameParts(ParseProcessorName(name).value) == parts;
  }

  /** Distinct slash-free identities never share a processor name. */
  lemma ProcessorNameInjective(a: Identity, b: Identity)
    requires SlashFree(a) && SlashFree(b)
    requires ProcessorName(a) == ProcessorName(b)
    ensures a == b
  {
    ParseProcessorNameRoundTrip(a);
    ParseProcessorNameRoundTrip(b);
  }

  /** How a template literal renders a configuration value that may be
      missing: the value itself, or the text `undefined`. */
  function Interpolate(v: Option<string>): string {
    match v
    case Some(s) => s
    case None => "undefined"
  }

  /** The processor name from possibly missing configuration values. No
      value is checked: a missing one is interpolated as `undefined`. The
      result is the template's name for the rendered values, and when none
      of them holds a slash it parses back to those values. */
  function ProcessorNameFromConfig(projectId: Option<string>, location: Option<string>, processorId: Option<string>): (name: string)
    ensures name == ProcessorName(Identity(Interpolate(projectId), Interpolate(location), Interpolate(processorId)))
    ensures var id := Identity(Interpolate(projectId), Interpolate(location), Interpolate(processorId));
      SlashFree(id) ==> ParseProcessorName(name) == Some(id)
  {
    var id := Identity(Interpolate(projectId), Interpolate(location), Interpolate(processorId));
    if SlashFree(id) then
      ParseProcessorNameRoundTrip(id);
      ProcessorName(id)
    else
      ProcessorName(id)
  }

  /** `p`, `us`, `proc` give `projects/p/locations/us/processors/proc`. */
  lemma ProcessorNameExample()
    ensures ProcessorName(Identity("p", "us", "proc")) == "projects/p/locations/us/processors/proc"
  {
  }

  /** With nothing configured the request still goes out, to a processor
      literally named `undefined`. */
  lemma MissingConfigExample()
    ensures ProcessorNameFromConfig(None, None, None) == "projects/undefined/locations/undefined/processors/undefined"
  {
    var u := "undefined";
    assert ProcessorName(Identity(u, u, u)) == "projects/" + u + "/locations/" + u + "/processors/" + u;
    UndefinedNameText();
  }

  /** The template's text with `undefined` in every slot. */
  lemma UndefinedNameText()
    ensures var u := "undefined";
      "projects/" + u + "/locations/" + u + "/processors/" + u
      == "projects/undefined/locations/undefined/processors/undefined"
  {
    var u := "undefined";
    assert "projects/" + u == "projects/undefined";
    assert "projects/undefined" + "/locations/" == "projects/undefined/locations/";
    assert "projects/undefined/locations/" + u == "projects/undefined/locations/undefined";
    assert "projects/undefined/locations/undefined" + "/processors/"
      == "projects/undefined/locations/undefined/processors/";
  }
}
