/** The embed widget's objects: the script-wide registry that holds `COUNTER`,
    `MESSAGE_ID` and `CALLBACKS`, and the notebook instances that share it. Each method
    changes the fields the script changes and is specified by the functions of module
    Router, NotebookPath and Query. */
module Embed {
  import opened Wrappers
  import opened Json
  import opened Router
  import Text
  import NotebookPath
  import Query
  import EnvAttrs
  import Deindent

  /** The options passed to `createNotebook`, each as the constructor reads it: None
      stands for `undefined` or `null`, `env` is Some only when it is an array, and the
      two callbacks are known only by whether they were given. */
  datatype Options = Options(
    source: Option<string>,
    readOnly: Option<string>,
    notebookURL: Option<string>,
    nodeVersion: Option<string>,
    title: Option<string>,
    env: Option<seq<string>>,
    hooks: Hooks)

  /** `getAttribute`: the value of the first attribute with that name, None when there is none. */
  function GetAttribute(attrs: seq<EnvAttrs.Attr>, name: string): (r: Option<string>)
    ensures r.Some? <==> exists i :: 0 <= i < |attrs| && attrs[i].name == name
  {
    if attrs == [] then None
    else if attrs[0].name == name then Some(attrs[0].value)
    else GetAttribute(attrs[1..], name)
  }

  /** A value found is the value of the first attribute that carries the name. */
  lemma {:induction false} GetAttributeFirst(attrs: seq<EnvAttrs.Attr>, name: string)
    ensures var r := GetAttribute(attrs, name);
            r.Some? ==> exists i :: 0 <= i < |attrs| && attrs[i].name == name && r.value == attrs[i].value &&
                                    forall j :: 0 <= j < i ==> attrs[j].name != name
  {
    if attrs != [] && attrs[0].name != name {
      GetAttributeFirst(attrs[1..], name);
      var r := GetAttribute(attrs, name);
      if r.Some? {
        var i :| 0 <= i < |attrs| - 1 && attrs[1..][i].name == name && r.value == attrs[1..][i].value &&
                 forall j :: 0 <= j < i ==> attrs[1..][j].name != name;
        assert forall j :: 0 <= j < i + 1 ==> attrs[j].name != name by {
          forall j | 0 <= j < i + 1 ensures attrs[j].name != name {
            if j > 0 { assert attrs[j] == attrs[1..][j - 1]; }
          }
        }
        assert attrs[i + 1] == attrs[1..][i];
      }
    }
  }

  /** A present, non-empty attribute value, as JavaScript tests it. */
  predicate Given(v: Option<string>) {
    v.Some? && v.value != ""
  }

  /** The options the script builds from its own tag's attributes and the text already
      in the target element (None when there is no such element or it has no text
      property), or None when the tag names neither an element nor a notebook. Without a
      truthy `data-element-id` the element is not looked up: the `source` option is that falsy
      attribute itself, `null` or `""`. */
  function Discover(attrs: seq<EnvAttrs.Attr>, existingSource: Option<string>): Option<Options> {
    var elementId := GetAttribute(attrs, "data-element-id");
    var notebookURL := GetAttribute(attrs, "data-notebook-url");
    if !Given(elementId) && !Given(notebookURL) then None
    else
      var source :=
        if !Given(elementId) then (if elementId.Some? then Some("") else None)
        else if Given(existingSource) then Some(Deindent.Reformat(existingSource.value))
        else existingSource;
      var readOnly := GetAttribute(attrs, "data-read-only").Some?;
      Some(Options(
        source,
        Some(if readOnly then "true" else "false"),
        notebookURL,
        GetAttribute(attrs, "data-node-version"),
        GetAttribute(attrs, "data-title"),
        Some(EnvAttrs.EnvEntries(attrs)),
        Hooks(Given(GetAttribute(attrs, "data-load-callback")), false)))
  }

  /** A tag that names neither an element nor a notebook embeds nothing; otherwise the
      notebook gets the `data-env-*` attributes as env entries, in order and one each, an
      explicit read-only flag, the tag's notebook, node version and title, a load hook
      exactly when a callback name is given, and the element's text reformatted when an
      element is named and has text, or no source text at all when none is named. */
  lemma DiscoverShape(attrs: seq<EnvAttrs.Attr>, existingSource: Option<string>)
    ensures var o := Discover(attrs, existingSource);
            (o.None? <==> !Given(GetAttribute(attrs, "data-element-id")) &&
                          !Given(GetAttribute(attrs, "data-notebook-url"))) &&
            (o.Some? ==>
              o.value.env == Some(EnvAttrs.EnvEntries(attrs)) &&
              |o.value.env.value| == EnvAttrs.CountEnvAttrs(attrs) &&
              o.value.readOnly.Some? &&
              (o.value.readOnly.value == "true" <==> exists i :: 0 <= i < |attrs| && attrs[i].name == "data-read-only") &&
              o.value.notebookURL == GetAttribute(attrs, "data-notebook-url") &&
              o.value.nodeVersion == GetAttribute(attrs, "data-node-version") &&
              o.value.title == GetAttribute(attrs, "data-title") &&
              (o.value.hooks.onLoad <==> Given(GetAttribute(attrs, "data-load-callback"))) &&
              !o.value.hooks.onUrlChanged &&
              (Given(GetAttribute(attrs, "data-element-id")) && Given(existingSource) ==>
                 o.value.source == Some(Deindent.Reformat(existingSource.value))) &&
              (Given(GetAttribute(attrs, "data-element-id")) && !Given(existingSource) ==>
                 o.value.source == existingSource) &&
              (!Given(GetAttribute(attrs, "data-element-id")) ==> !Given(o.value.source)))
  {
    EnvAttrs.EnvEntriesCount(attrs);
  }

  /** `initialHeight`: 100, or 21 pixels per source line plus 10 when there is a source. */
  function InitialHeight(source: Option<string>): int {
    if source.Some? && source.value != "" then |Text.Split(source.value, '\n')| * 21 + 10 else 100
  }

  /** The frame's starting height in pixels: `Math.max(100, initialHeight) + 50`. */
  function FrameHeight(source: Option<string>): (h: int)
    ensures h >= 150
    ensures !(source.Some? && source.value != "") ==> h == 150
    ensures source.Some? && source.value != "" ==>
              h == Text.Count(source.value, '\n') * 21 + 81 ||
              (h == 150 && Text.Count(source.value, '\n') * 21 + 31 <= 100)
  {
    Text.SplitCount(source.GetOr(""), '\n');
    var initial := InitialHeight(source);
    (if initial >= 100 then initial else 100) + 50
  }

  /** The fields of the frame's query for an instance named `name`, given the notebook
      reference after canonicalisation. */
  function QueryFields(name: string, notebook: Option<string>, options: Options, location: string): Query.Fields {
    Query.Fields(
      name,
      notebook,
      if options.source.Some? then Text.Trim(options.source.value) else "",
      location,
      options.readOnly,
      options.nodeVersion,
      options.title)
  }

  /** The frame's address. */
  function FrameSource(origin: string, name: string, options: Options, location: string,
                       encode: string -> string): string {
    var fields := QueryFields(name, NotebookPath.Canonical(options.notebookURL), options, location);
    origin + "/e" + Query.QueryString(fields, options.env, encode)
  }

  /** The payloads of the three public requests. */
  function GetSourceRequest(): Value {
    Obj(map["method" := Str("get_source")])
  }

  function SetSourceRequest(source: string): Value {
    Obj(map["method" := Str("set_source"), "source" := Str(source)])
  }

  function EvaluateRequest(): Value {
    Obj(map["method" := Str("evaluate")])
  }

  /** The three requests are told apart by their `method` field. */
  lemma RequestsDistinct(source: string)
    ensures Get(GetSourceRequest(), "method") == Some(Str("get_source"))
    ensures Get(SetSourceRequest(source), "method") == Some(Str("set_source"))
    ensures Get(SetSourceRequest(source), "source") == Some(Str(source))
    ensures Get(EvaluateRequest(), "method") == Some(Str("evaluate"))
    ensures GetSourceRequest() != SetSourceRequest(source) && GetSourceRequest() != EvaluateRequest() &&
            SetSourceRequest(source) != EvaluateRequest()
  {
    assert Get(GetSourceRequest(), "method") != Get(EvaluateRequest(), "method");
  }

  /** The state the script keeps once, shared by every instance: the origin of the
      frames, the URI encoder, and `COUNTER`, `MESSAGE_ID` and `CALLBACKS`. */
  class Registry {
    const origin: string
    const encode: string -> string
    var counter: nat
    var nextId: nat
    var callbacks: Table

    /** The router state these fields hold. */
    function Model(): State
      reads this
    {
      State(nextId, callbacks)
    }

    ghost predicate Valid()
      reads this
    {
      Router.Valid(Model())
    }

    constructor(origin: string, encode: string -> string)
      ensures this.origin == origin && this.encode == encode
      ensures counter == 0 && Model() == Initial && Valid()
    {
      this.origin := origin;
      this.encode := encode;
      counter := 0;
      nextId := 1;
      callbacks := map[];
    }
  }

  /** One embedded notebook. `posted` is what it has sent to its frame, in order; `height`
      and `url` are the last values its frame reported. */
  class Notebook {
    const name: string
    const registry: Registry
    const hooks: Hooks
    const query: Query.Fields
    const env: Option<seq<string>>
    const src: string
    const frameHeight: int
    var height: Option<Value>
    var url: Option<Value>
    var posted: seq<Envelope>

    /** The instance's `URL` property when the frame reported a string path: the origin
        followed by that path. */
    function URL(): Option<string>
      reads this, registry
    {
      if url.Some? && url.value.Str? then Some(registry.origin + url.value.s) else None
    }

    /** `new Notebook(options)`: takes the next instance name, canonicalises the notebook
        reference and builds the frame's address from the query fields. */
    constructor(registry: Registry, options: Options, location: string)
      modifies registry
      ensures this.registry == registry && hooks == options.hooks
      ensures name == InstanceName(old(registry.counter))
      ensures registry.counter == old(registry.counter) + 1
      ensures registry.Model() == old(registry.Model())
      ensures query == QueryFields(name, NotebookPath.Canonical(options.notebookURL), options, location)
      ensures env == options.env
      ensures src == FrameSource(registry.origin, name, options, location, registry.encode)
      ensures frameHeight == FrameHeight(options.source)
      ensures height == None && url == None && posted == []
    {
      var n := InstanceName(registry.counter);
      this.name := n;
      this.registry := registry;
      this.hooks := options.hooks;
      var notebook := NotebookPath.Canonicalise(options.notebookURL);
      var fields := QueryFields(n, notebook, options, location);
      this.query := fields;
      this.env := options.env;
      this.src := registry.origin + "/e" + Query.QueryString(fields, options.env, registry.encode);
      this.frameHeight := FrameHeight(options.source);
      height := None;
      url := None;
      posted := [];
      new;
      registry.counter := registry.counter + 1;
    }

    /** `_sendMessage`: hands out the next message id, records the callback under it, and
        posts the envelope to the frame. */
    method SendMessage(data: Value, callback: Option<Handler>) returns (id: nat)
      modifies this, registry
      ensures id == old(registry.nextId)
      ensures registry.Model() == Send(old(registry.Model()), callback)
      ensures old(registry.Valid()) ==> registry.Valid() && id !in old(registry.callbacks)
      ensures registry.counter == old(registry.counter)
      ensures posted == old(posted) + [Envelope(name, id, data)]
      ensures height == old(height) && url == old(url)
    {
      id := registry.nextId;
      registry.nextId := registry.nextId + 1;
      registry.callbacks := registry.callbacks[id := callback];
      posted := posted + [Envelope(name, id, data)];
    }

    method GetSource(callback: Option<Handler>) returns (id: nat)
      modifies this, registry
      ensures id == old(registry.nextId)
      ensures registry.Model() == Send(old(registry.Model()), callback)
      ensures registry.counter == old(registry.counter)
      ensures posted == old(posted) + [Envelope(name, id, GetSourceRequest())]
      ensures height == old(height) && url == old(url)
    {
      id := SendMessage(GetSourceRequest(), callback);
    }

    method SetSource(source: string, callback: Option<Handler>) returns (id: nat)
      modifies this, registry
      ensures id == old(registry.nextId)
      ensures registry.Model() == Send(old(registry.Model()), callback)
      ensures registry.counter == old(registry.counter)
      ensures posted == old(posted) + [Envelope(name, id, SetSourceRequest(source))]
      ensures height == old(height) && url == old(url)
    {
      id := SendMessage(SetSourceRequest(source), callback);
    }

    method Evaluate(callback: Option<Handler>) returns (id: nat)
      modifies this, registry
      ensures id == old(registry.nextId)
      ensures registry.Model() == Send(old(registry.Model()), callback)
      ensures registry.counter == old(registry.counter)
      ensures posted == old(posted) + [Envelope(name, id, EvaluateRequest())]
      ensures height == old(height) && url == old(url)
    {
      id := SendMessage(EvaluateRequest(), callback);
    }

    /** The `message` listener for one parsed message (None when it did not parse): acts
        only on messages addressed to this instance, and takes the first branch that
        applies. The effect says which one, and which callback to call with what. */
    method OnMessage(parsed: Option<Value>) returns (effect: Effect)
      modifies this, registry
      ensures (registry.callbacks, effect) == Dispatch(old(registry.callbacks), name, parsed, hooks)
      ensures registry.nextId == old(registry.nextId) && registry.counter == old(registry.counter)
      ensures old(registry.Valid()) ==> registry.Valid()
      ensures height == (if effect.Resized? then Some(effect.height) else old(height))
      ensures url == (if effect.UrlChanged? then Some(effect.url) else old(url))
      ensures posted == old(posted)
    {
      effect := Ignored;
      if parsed.Some? && Get(parsed.value, "name") == Some(Str(name)) {
        var m := parsed.value;
        if Truthy(Get(m, "height")) {
          height := Get(m, "height");
          effect := Resized(height.value);
        } else if Get(m, "event") == Some(Str("loaded")) {
          effect := Loaded(hooks.onLoad);
        } else if Truthy(Get(m, "url")) {
          url := Get(m, "url");
          effect := UrlChanged(url.value, hooks.onUrlChanged);
        } else {
          var mid := Get(m, "message_id");
          if Truthy(mid) && TableKey(mid.value).Some? {
            var k := TableKey(mid.value).value;
            if k in registry.callbacks && registry.callbacks[k].Some? {
              var callback := registry.callbacks[k].value;
              registry.callbacks := registry.callbacks - {k};
              effect := Replied(k, callback, Get(m, "message"));
            }
          }
        }
      }
    }
  }

  /** `createNotebook` on a fresh registry twice: the instances get the names
      `tonic-embed-0` and `tonic-embed-1`, and a request from each gets ids 1 and 2 from
      the one shared counter. */
  method TwoInstances(origin: string, encode: string -> string, a: Options, b: Options, location: string)
    returns (first: Notebook, second: Notebook, idA: nat, idB: nat)
    ensures first.name == InstanceName(0) && second.name == InstanceName(1) && first.name != second.name
    ensures first.registry == second.registry
    ensures idA == 1 && idB == 2
    ensures first.posted == [Envelope(first.name, 1, GetSourceRequest())]
    ensures second.posted == [Envelope(second.name, 2, EvaluateRequest())]
    ensures 1 in first.registry.callbacks && 2 in first.registry.callbacks
  {
    var registry := new Registry(origin, encode);
    first := new Notebook(registry, a, location);
    second := new Notebook(registry, b, location);
    InstanceNamesDistinct(0, 1);
    idA := first.GetSource(None);
    idB := second.Evaluate(None);
  }
}
