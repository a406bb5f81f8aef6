/**
 * `ResourcesManager`: the JavaScript files, style sheets, HTML forms and
 * plugin dependencies a plugin registers, and `load`, which loads the
 * dependencies' resources first and then its own, once.
 *
 * The DOM-touching loaders (`loadGuiForm`, `loadJSResource`,
 * `loadCSSResource`) are events appended to a trace; each event records the
 * registry name of the manager that issued it.  The lists the source creates
 * on first use are empty sequences here: a list that does not exist and an
 * empty one load the same (nothing), and `hasDependencies` is true exactly
 * when the list is non-empty, since it only comes into being with its first
 * element.
 */
module ResourcesManager {
  import opened JsValues

  /** What `getAttribute` returns: a string, or `None` for null. */
  type Attribute = Option<JsString>

  datatype JsResource = JsResource(fileName: Attribute, className: Attribute)

  /** An entry of the forms `Map`: an id and its HTML snippet. */
  datatype Form = Form(id: JsString, snippet: Attribute)

  /**
   * `this.resources`.  `forms` is a `Map` and keeps its entries in the order
   * their ids were first set; its ids are distinct (`UniqueIds`).
   */
  datatype Resources = Resources(js: seq<JsResource>, css: seq<Attribute>, forms: seq<Form>, dependencies: seq<Attribute>)

  datatype Manager = Manager(resources: Resources, loaded: bool)

  /** The state the constructor creates: no resources, not loaded. */
  const NoResources: Resources := Resources([], [], [], [])
  const NewManager: Manager := Manager(NoResources, false)

  // Node names, attribute names and the property name null converts to.
  const ResourcesTag: JsString := Js("resources")
  const DependenciesTag: JsString := Js("dependencies")
  const ClientFormTag: JsString := Js("clientForm")
  const JsTag: JsString := Js("js")
  const CssTag: JsString := Js("css")
  const PluginResourcesTag: JsString := Js("pluginResources")
  const FileAttribute: JsString := Js("file")
  const ClassNameAttribute: JsString := Js("className")
  const PluginNameAttribute: JsString := Js("pluginName")
  const ThemeAttribute: JsString := Js("theme")
  const IdAttribute: JsString := Js("id")
  const NullKey: JsString := Js("null")

  // ----------------------------------------------------------- registration

  function AddJSResource(res: Resources, fileName: Attribute, className: Attribute): Resources
  {
    res.(js := res.js + [JsResource(fileName, className)])
  }

  function AddCSSResource(res: Resources, fileName: Attribute): Resources
  {
    res.(css := res.css + [fileName])
  }

  predicate UniqueIds(forms: seq<Form>)
  {
    forall i, j :: 0 <= i < j < |forms| ==> forms[i].id != forms[j].id
  }

  /** The snippet the forms `Map` holds for `id`. */
  function Lookup(forms: seq<Form>, id: JsString): (r: Option<Attribute>)
  {
    if |forms| == 0 then None
    else if forms[0].id == id then Some(forms[0].snippet)
    else Lookup(forms[1..], id)
  }

  /** `Map.set`: overwrite the entry of `id` where it stands, or add one at the end. */
  function SetForm(forms: seq<Form>, id: JsString, snippet: Attribute): (r: seq<Form>)
  {
    if |forms| == 0 then [Form(id, snippet)]
    else if forms[0].id == id then [Form(id, snippet)] + forms[1..]
    else [forms[0]] + SetForm(forms[1..], id, snippet)
  }

  function AddGuiForm(res: Resources, formId: JsString, htmlSnippet: Attribute): Resources
  {
    res.(forms := SetForm(res.forms, formId, htmlSnippet))
  }

  function AddDependency(res: Resources, data: Attribute): Resources
  {
    res.(dependencies := res.dependencies + [data])
  }

  /** `this.resources.dependencies || false`, as a truth value. */
  predicate HasDependencies(res: Resources)
  {
    |res.dependencies| > 0
  }

  /** One call of a registration method. */
  datatype Registration =
    | AddJs(fileName: Attribute, className: Attribute)
    | AddCss(cssFile: Attribute)
    | AddForm(formId: JsString, htmlSnippet: Attribute)
    | AddDep(pluginName: Attribute)

  function Register(res: Resources, op: Registration): Resources
  {
    match op
    case AddJs(f, c) => AddJSResource(res, f, c)
    case AddCss(f) => AddCSSResource(res, f)
    case AddForm(id, h) => AddGuiForm(res, id, h)
    case AddDep(d) => AddDependency(res, d)
  }

  /** The registrations, first to last. */
  function RegisterAll(res: Resources, ops: seq<Registration>): Resources
    decreases |ops|
  {
    if |ops| == 0 then res else RegisterAll(Register(res, ops[0]), ops[1..])
  }

  // ------------------------------------------------------ registration facts

  /** `Map.set` makes `id` hold the new snippet and leaves every other id as it was. */
  lemma {:induction false} SetFormLookup(forms: seq<Form>, id: JsString, snippet: Attribute, other: JsString)
    ensures Lookup(SetForm(forms, id, snippet), id) == Some(snippet)
    ensures other != id ==> Lookup(SetForm(forms, id, snippet), other) == Lookup(forms, other)
  {
    if |forms| > 0 && forms[0].id != id {
      SetFormLookup(forms[1..], id, snippet, other);
    }
  }

  /** A form id present in the `Map` is one of its entries' ids. */
  lemma {:induction false} LookupFound(forms: seq<Form>, id: JsString)
    ensures Lookup(forms, id).Some? <==> exists i :: 0 <= i < |forms| && forms[i].id == id
  {
    if |forms| > 0 {
      LookupFound(forms[1..], id);
      if forms[0].id != id {
        assert (exists i :: 0 <= i < |forms[1..]| && forms[1..][i].id == id) <==> (exists i :: 0 <= i < |forms| && forms[i].id == id) by {
          if exists i :: 0 <= i < |forms| && forms[i].id == id {
            var i :| 0 <= i < |forms| && forms[i].id == id;
            assert forms[1..][i - 1].id == id;
          }
        }
      }
    }
  }

  /**
   * Re-setting an id overwrites its entry in place, adding none; a new id is
   * added once, at the end.  Either way the ids stay distinct.
   */
  lemma {:induction false} SetFormShape(forms: seq<Form>, id: JsString, snippet: Attribute)
    requires UniqueIds(forms)
    ensures UniqueIds(SetForm(forms, id, snippet))
    ensures Lookup(forms, id).Some? ==> |SetForm(forms, id, snippet)| == |forms|
    ensures Lookup(forms, id).None? ==> SetForm(forms, id, snippet) == forms + [Form(id, snippet)]
  {
    SetFormIds(forms, id, snippet);
    if |forms| > 0 {
      var rest := SetForm(forms[1..], id, snippet);
      assert UniqueIds(forms[1..]) by {
        forall i, j | 0 <= i < j < |forms[1..]|
          ensures forms[1..][i].id != forms[1..][j].id
        {
          assert forms[1..][i] == forms[i + 1] && forms[1..][j] == forms[j + 1];
        }
      }
      SetFormShape(forms[1..], id, snippet);
      SetFormIds(forms[1..], id, snippet);
      if forms[0].id != id {
        var r := [forms[0]] + rest;
        forall k | 0 <= k < |rest|
          ensures rest[k].id != forms[0].id
        {
          if k < |forms[1..]| {
            assert rest[k].id == forms[1..][k].id == forms[k + 1].id;
          } else {
            assert rest == forms[1..] + [Form(id, snippet)];
          }
        }
        forall i, j | 0 <= i < j < |r|
          ensures r[i].id != r[j].id
        {
          if i > 0 {
            assert r[i] == rest[i - 1] && r[j] == rest[j - 1];
          } else {
            assert r[j] == rest[j - 1];
          }
        }
      } else {
        var r := [Form(id, snippet)] + forms[1..];
        forall i, j | 0 <= i < j < |r|
          ensures r[i].id != r[j].id
        {
          assert r[j] == forms[j];
          if i > 0 {
            assert r[i] == forms[i];
          }
        }
      }
    }
  }

  /** `Map.set` keeps every entry's id where it stands. */
  lemma {:induction false} SetFormIds(forms: seq<Form>, id: JsString, snippet: Attribute)
    ensures |SetForm(forms, id, snippet)| >= |forms|
    ensures forall i :: 0 <= i < |forms| ==> SetForm(forms, id, snippet)[i].id == forms[i].id
  {
    if |forms| > 0 && forms[0].id != id {
      var rest := SetForm(forms[1..], id, snippet);
      SetFormIds(forms[1..], id, snippet);
      forall i | 0 < i < |forms|
        ensures ([forms[0]] + rest)[i].id == forms[i].id
      {
        assert ([forms[0]] + rest)[i] == rest[i - 1];
        assert forms[1..][i - 1] == forms[i];
      }
    }
  }

  /** `hasDependencies` holds exactly when one of the registrations was an `addDependency`. */
  lemma {:induction false} HasDependenciesIff(res: Resources, ops: seq<Registration>)
    ensures HasDependencies(RegisterAll(res, ops)) <==> HasDependencies(res) || exists i :: 0 <= i < |ops| && ops[i].AddDep?
    decreases |ops|
  {
    if |ops| > 0 {
      var next := Register(res, ops[0]);
      HasDependenciesIff(next, ops[1..]);
      assert HasDependencies(next) <==> HasDependencies(res) || ops[0].AddDep?;
      assert (exists i :: 0 <= i < |ops| && ops[i].AddDep?) <==> ops[0].AddDep? || exists i :: 0 <= i < |ops[1..]| && ops[1..][i].AddDep? by {
        if exists i :: 0 <= i < |ops| && ops[i].AddDep? {
          var i :| 0 <= i < |ops| && ops[i].AddDep?;
          if i > 0 {
            assert ops[1..][i - 1].AddDep?;
          }
        }
        if exists i :: 0 <= i < |ops[1..]| && ops[1..][i].AddDep? {
          var i :| 0 <= i < |ops[1..]| && ops[1..][i].AddDep?;
          assert ops[i + 1].AddDep?;
        }
      }
    }
  }

  /** A new manager has no dependencies until one is added. */
  lemma NewManagerHasDependencies(ops: seq<Registration>)
    ensures HasDependencies(RegisterAll(NoResources, ops)) <==> exists i :: 0 <= i < |ops| && ops[i].AddDep?
  {
    HasDependenciesIff(NoResources, ops);
  }

  // ----------------------------------------------------------------- events

  /** What the DOM-touching loaders do, as events: `issuer` is the issuing manager's registry name. */
  datatype Event =
    | LoadGuiForm(issuer: JsString, formId: JsString, htmlSnippet: Attribute)
    | LoadJSResource(issuer: JsString, fileName: Attribute, className: Attribute)
    | LoadCSSResource(issuer: JsString, cssFile: Attribute)

  function FormEvents(issuer: JsString, forms: seq<Form>): (e: seq<Event>)
    ensures |e| == |forms|
  {
    seq(|forms|, i requires 0 <= i < |forms| => LoadGuiForm(issuer, forms[i].id, forms[i].snippet))
  }

  function JsEvents(issuer: JsString, js: seq<JsResource>): (e: seq<Event>)
    ensures |e| == |js|
  {
    seq(|js|, i requires 0 <= i < |js| => LoadJSResource(issuer, js[i].fileName, js[i].className))
  }

  function CssEvents(issuer: JsString, css: seq<Attribute>): (e: seq<Event>)
    ensures |e| == |css|
  {
    seq(|css|, i requires 0 <= i < |css| => LoadCSSResource(issuer, css[i]))
  }

  /** A manager's own part of `load`: all forms, then all JS files, then all style sheets. */
  function OwnEvents(issuer: JsString, res: Resources): (e: seq<Event>)
  {
    FormEvents(issuer, res.forms) + JsEvents(issuer, res.js) + CssEvents(issuer, res.css)
  }

  /** 0 for a form, 1 for a JS file, 2 for a style sheet. */
  function Phase(e: Event): nat
  {
    match e
    case LoadGuiForm(_, _, _) => 0
    case LoadJSResource(_, _, _) => 1
    case LoadCSSResource(_, _) => 2
  }

  /**
   * A manager's own events come forms first, JS files next, style sheets
   * last, all issued by it, one per registered resource.
   */
  lemma OwnEventsOrder(issuer: JsString, res: Resources)
    ensures |OwnEvents(issuer, res)| == |res.forms| + |res.js| + |res.css|
    ensures forall i, j :: 0 <= i < j < |OwnEvents(issuer, res)| ==> Phase(OwnEvents(issuer, res)[i]) <= Phase(OwnEvents(issuer, res)[j])
    ensures forall i :: 0 <= i < |OwnEvents(issuer, res)| ==> OwnEvents(issuer, res)[i].issuer == issuer
  {
    var f, j, c := FormEvents(issuer, res.forms), JsEvents(issuer, res.js), CssEvents(issuer, res.css);
    var e := OwnEvents(issuer, res);
    assert forall i :: 0 <= i < |e| ==> e[i] == if i < |f| then f[i] else if i < |f| + |j| then j[i - |f|] else c[i - |f| - |j|];
  }

  /** A JS file registered last is loaded after the other JS files and before the style sheets. */
  lemma AddJsThenLoad(issuer: JsString, res: Resources, fileName: Attribute, className: Attribute)
    ensures OwnEvents(issuer, AddJSResource(res, fileName, className))
         == FormEvents(issuer, res.forms) + JsEvents(issuer, res.js) + [LoadJSResource(issuer, fileName, className)] + CssEvents(issuer, res.css)
  {
    assert JsEvents(issuer, res.js + [JsResource(fileName, className)]) == JsEvents(issuer, res.js) + [LoadJSResource(issuer, fileName, className)];
  }

  /** A style sheet registered last is the last thing the manager loads. */
  lemma AddCssThenLoad(issuer: JsString, res: Resources, fileName: Attribute)
    ensures OwnEvents(issuer, AddCSSResource(res, fileName)) == OwnEvents(issuer, res) + [LoadCSSResource(issuer, fileName)]
  {
    assert CssEvents(issuer, res.css + [fileName]) == CssEvents(issuer, res.css) + [LoadCSSResource(issuer, fileName)];
  }

  /**
   * Re-adding a form id changes the snippet its load event carries and
   * nothing else: the number and order of the form events stay.
   */
  lemma ReAddFormThenLoad(issuer: JsString, res: Resources, formId: JsString, htmlSnippet: Attribute)
    requires UniqueIds(res.forms) && Lookup(res.forms, formId).Some?
    ensures |OwnEvents(issuer, AddGuiForm(res, formId, htmlSnippet))| == |OwnEvents(issuer, res)|
    ensures forall i :: 0 <= i < |res.forms| ==> FormEvents(issuer, AddGuiForm(res, formId, htmlSnippet).forms)[i].formId == FormEvents(issuer, res.forms)[i].formId
  {
    SetFormShape(res.forms, formId, htmlSnippet);
    SetFormIds(res.forms, formId, htmlSnippet);
  }

  // ------------------------------------------------------------------- load

  /** `resourcesRegistry`: the managers of the plugins, by name. */
  type Registry = map<JsString, Manager>

  /** The property name `resourcesRegistry[el]` reads: null reads "null". */
  function Key(name: Attribute): JsString
  {
    match name
    case Some(s) => s
    case None => NullKey
  }

  /**
   * A registry after a `load`, the events the `load` issued, and the names
   * of the managers it marked loaded, in the order it marked them.
   */
  datatype Outcome = Outcome(registry: Registry, events: seq<Event>, order: seq<JsString>)

  /** A dependency of `deps`, from index `i` on, that `load` would descend into. */
  predicate Pending(reg: Registry, deps: seq<Attribute>, j: nat)
    requires j < |deps|
  {
    Key(deps[j]) in reg && !reg[Key(deps[j])].loaded
  }

  /** Every pending dependency from index `i` on ranks below `r`. */
  predicate DepsBelow(reg: Registry, rank: map<JsString, nat>, deps: seq<Attribute>, i: nat, r: nat)
  {
    forall j :: i <= j < |deps| && Pending(reg, deps, j) ==> Key(deps[j]) in rank && rank[Key(deps[j])] < r
  }

  /**
   * The managers not yet loaded, ranked so that every one ranks above each
   * of its pending dependencies: the dependency graph among them has no
   * cycle.
   */
  predicate Ranked(reg: Registry, rank: map<JsString, nat>)
  {
    forall x :: x in reg && !reg[x].loaded ==> x in rank && DepsBelow(reg, rank, reg[x].resources.dependencies, 0, rank[x])
  }

  /** `after` is `before` with more managers loaded, and nothing else changed. */
  predicate Grows(before: Registry, after: Registry)
  {
    after.Keys == before.Keys
    && forall x :: x in before ==> after[x].resources == before[x].resources && (before[x].loaded ==> after[x].loaded)
  }

  /** A manager this load set loaded. */
  predicate NewlyLoaded(before: Registry, after: Registry, x: JsString)
  {
    x in before && x in after && !before[x].loaded && after[x].loaded
  }

  lemma GrowsTransitive(a: Registry, b: Registry, c: Registry)
    requires Grows(a, b) && Grows(b, c)
    ensures Grows(a, c)
  {
  }

  /** Loading more managers keeps a ranking valid: it only has fewer managers to order. */
  lemma GrowsRanked(before: Registry, after: Registry, rank: map<JsString, nat>)
    requires Grows(before, after) && Ranked(before, rank)
    ensures Ranked(after, rank)
  {
    forall x | x in after && !after[x].loaded
      ensures x in rank && DepsBelow(after, rank, after[x].resources.dependencies, 0, rank[x])
    {
      GrowsDepsBelow(before, after, rank, after[x].resources.dependencies, 0, rank[x]);
    }
  }

  lemma GrowsDepsBelow(before: Registry, after: Registry, rank: map<JsString, nat>, deps: seq<Attribute>, i: nat, r: nat)
    requires Grows(before, after) && DepsBelow(before, rank, deps, i, r)
    ensures DepsBelow(after, rank, deps, i, r)
  {
    forall j | i <= j < |deps| && Pending(after, deps, j)
      ensures Key(deps[j]) in rank && rank[Key(deps[j])] < r
    {
      assert Pending(before, deps, j);
    }
  }

  /**
   * The events end with the manager's own, after every event of the other
   * managers.
   */
  predicate LoadsLast(events: seq<Event>, name: JsString, res: Resources)
  {
    var own := OwnEvents(name, res);
    |own| <= |events| && events[|events| - |own|..] == own
    && forall i :: 0 <= i < |events| - |own| ==> events[i].issuer != name
  }

  /**
   * `load` of the manager named `name`: nothing when it is loaded;
   * otherwise its dependencies, in order, then its own forms, JS files and
   * style sheets, and then it is marked loaded.  `rank` witnesses that the
   * recursion ends.
   */
  function Load(reg: Registry, name: JsString, ghost rank: map<JsString, nat>): (o: Outcome)
    requires name in reg && Ranked(reg, rank)
    ensures Grows(reg, o.registry) && o.registry[name].loaded
    ensures reg[name].loaded ==> o == Outcome(reg, [], [])
    ensures forall x :: NewlyLoaded(reg, o.registry, x) ==> x in rank && name in rank && rank[x] <= rank[name]
    ensures forall i :: 0 <= i < |o.events| ==> NewlyLoaded(reg, o.registry, o.events[i].issuer)
    ensures !reg[name].loaded ==> LoadsLast(o.events, name, reg[name].resources)
    decreases if name in rank then rank[name] else 0, 1, 0
  {
    if reg[name].loaded then Outcome(reg, [], [])
    else
      var deps := LoadDependencies(reg, name, reg[name].resources.dependencies, 0, rank);
      var res := deps.registry[name].resources;
      Outcome(deps.registry[name := Manager(res, true)], deps.events + OwnEvents(name, res), deps.order + [name])
  }

  /**
   * The loop over `this.resources.dependencies` from index `i` on: each name
   * the registry has and that is not loaded yet is loaded (`load` of a
   * loaded manager returns at once, so skipping it is the same).
   */
  function LoadDependencies(reg: Registry, name: JsString, deps: seq<Attribute>, i: nat, ghost rank: map<JsString, nat>): (o: Outcome)
    requires name in reg && name in rank && Ranked(reg, rank) && i <= |deps|
    requires DepsBelow(reg, rank, deps, i, rank[name])
    ensures Grows(reg, o.registry)
    ensures forall x :: NewlyLoaded(reg, o.registry, x) ==> x in rank && rank[x] < rank[name]
    ensures forall k :: 0 <= k < |o.events| ==> NewlyLoaded(reg, o.registry, o.events[k].issuer)
    ensures forall j :: i <= j < |deps| && Key(deps[j]) in reg ==> o.registry[Key(deps[j])].loaded
    decreases rank[name], 0, |deps| - i
  {
    if i == |deps| then Outcome(reg, [], [])
    else if Pending(reg, deps, i) then
      var first := Load(reg, Key(deps[i]), rank);
      GrowsRanked(reg, first.registry, rank);
      GrowsDepsBelow(reg, first.registry, rank, deps, i + 1, rank[name]);
      var rest := LoadDependencies(first.registry, name, deps, i + 1, rank);
      GrowsTransitive(reg, first.registry, rest.registry);
      Outcome(rest.registry, first.events + rest.events, first.order + rest.order)
    else
      LoadDependencies(reg, name, deps, i + 1, rank)
  }

  // ------------------------------------------------------------ load order

  /** What one manager's own part of `load` issues; a name the registry lacks issues nothing. */
  function Block(reg: Registry, x: JsString): (e: seq<Event>)
  {
    if x in reg then OwnEvents(x, reg[x].resources) else []
  }

  /** The own parts of the managers `xs`, one block after the other. */
  function Blocks(reg: Registry, xs: seq<JsString>): (e: seq<Event>)
  {
    if |xs| == 0 then [] else Block(reg, xs[0]) + Blocks(reg, xs[1..])
  }

  predicate Distinct(xs: seq<JsString>)
  {
    forall k, m :: 0 <= k < m < |xs| ==> xs[k] != xs[m]
  }

  /** The registry names of a dependency list. */
  function Names(deps: seq<Attribute>): (r: seq<JsString>)
    ensures |r| == |deps|
  {
    seq(|deps|, j requires 0 <= j < |deps| => Key(deps[j]))
  }

  /** The dependency list of the manager named `x`. */
  function Deps(reg: Registry, x: JsString): (deps: seq<Attribute>)
  {
    if x in reg then reg[x].resources.dependencies else []
  }

  /** Every dependency of a member of `xs` that `reg` has and has not loaded comes earlier in `xs`. */
  predicate DependenciesFirst(reg: Registry, xs: seq<JsString>)
  {
    forall k, j :: 0 <= k < |xs| && 0 <= j < |Deps(reg, xs[k])| && Pending(reg, Deps(reg, xs[k]), j)
      ==> Key(Deps(reg, xs[k])[j]) in xs[..k]
  }

  /** Every member of `xs` is one of `roots` or a dependency of a later member. */
  predicate OnBehalf(reg: Registry, xs: seq<JsString>, roots: seq<JsString>)
  {
    forall k :: 0 <= k < |xs| ==>
      xs[k] in roots || exists m :: k < m < |xs| && xs[k] in Names(Deps(reg, xs[m]))
  }

  /** Every root that `reg` has and has not loaded is in `xs`. */
  predicate Covers(reg: Registry, xs: seq<JsString>, roots: seq<JsString>)
  {
    forall j :: 0 <= j < |roots| && roots[j] in reg && !reg[roots[j]].loaded ==> roots[j] in xs
  }

  /**
   * `xs` is an order in which loading `roots` may mark managers loaded:
   * dependencies before the managers that need them, every unloaded root
   * included, and nothing that no root needs.
   */
  predicate LoadsFor(reg: Registry, xs: seq<JsString>, roots: seq<JsString>)
  {
    DependenciesFirst(reg, xs) && OnBehalf(reg, xs, roots) && Covers(reg, xs, roots)
  }

  /**
   * What a `load` or a dependency loop did, as `o` shows it: the events are
   * the own parts of the managers it marked loaded, in the order it marked
   * them, each once, and nothing else.
   */
  ghost predicate Traced(reg: Registry, o: Outcome)
  {
    o.events == Blocks(reg, o.order)
    && Distinct(o.order)
    && forall x :: x in o.order <==> NewlyLoaded(reg, o.registry, x)
  }

  lemma {:induction false} BlocksAppend(reg: Registry, a: seq<JsString>, b: seq<JsString>)
    ensures Blocks(reg, a + b) == Blocks(reg, a) + Blocks(reg, b)
    decreases |a|
  {
    if |a| == 0 {
      assert a + b == b;
    } else {
      assert (a + b)[1..] == a[1..] + b;
      BlocksAppend(reg, a[1..], b);
    }
  }

  /** Loading more managers changes no manager's own part. */
  lemma {:induction false} GrowsBlocks(before: Registry, after: Registry, xs: seq<JsString>)
    requires Grows(before, after)
    ensures Blocks(after, xs) == Blocks(before, xs)
    decreases |xs|
  {
    if |xs| > 0 {
      GrowsBlocks(before, after, xs[1..]);
    }
  }

  lemma NamesSlice(deps: seq<Attribute>, i: nat, j: nat)
    requires i < j <= |deps|
    ensures Names(deps[i..j]) == [Key(deps[i])] + Names(deps[i + 1..j])
  {
  }

  /** Two traced steps, the second on the registry the first left, make one traced step. */
  lemma TracedAppend(reg: Registry, first: Outcome, rest: Outcome)
    requires Grows(reg, first.registry) && Grows(first.registry, rest.registry)
    requires Traced(reg, first) && Traced(first.registry, rest)
    ensures Traced(reg, Outcome(rest.registry, first.events + rest.events, first.order + rest.order))
  {
    var mid := first.registry;
    var xs := first.order + rest.order;
    GrowsBlocks(reg, mid, rest.order);
    BlocksAppend(reg, first.order, rest.order);
    forall k, m | 0 <= k < m < |xs|
      ensures xs[k] != xs[m]
    {
      if k < |first.order| && m >= |first.order| {
        assert NewlyLoaded(reg, mid, xs[k]) && NewlyLoaded(mid, rest.registry, xs[m]);
      }
    }
    forall x
      ensures x in xs <==> NewlyLoaded(reg, rest.registry, x)
    {
      if NewlyLoaded(reg, rest.registry, x) && !mid[x].loaded {
        assert NewlyLoaded(mid, rest.registry, x);
      }
    }
  }

  /** Loading more managers keeps the dependency lists, so a manager named in one still is. */
  lemma GrowsDeps(before: Registry, after: Registry, x: JsString)
    requires Grows(before, after)
    ensures Deps(after, x) == Deps(before, x)
  {
  }

  lemma DependenciesFirstAppend(reg: Registry, mid: Registry, a: seq<JsString>, b: seq<JsString>)
    requires Grows(reg, mid)
    requires forall x :: x in a <==> NewlyLoaded(reg, mid, x)
    requires DependenciesFirst(reg, a) && DependenciesFirst(mid, b)
    ensures DependenciesFirst(reg, a + b)
  {
    var xs := a + b;
    forall k, j | 0 <= k < |xs| && 0 <= j < |Deps(reg, xs[k])| && Pending(reg, Deps(reg, xs[k]), j)
      ensures Key(Deps(reg, xs[k])[j]) in xs[..k]
    {
      var y := Key(Deps(reg, xs[k])[j]);
      if k < |a| {
        assert xs[k] == a[k] && xs[..k] == a[..k];
      } else {
        var k' := k - |a|;
        assert xs[k] == b[k'];
        GrowsDeps(reg, mid, b[k']);
        assert xs[..k] == a + b[..k'];
        if !mid[y].loaded {
          assert Pending(mid, Deps(mid, b[k']), j);
          assert y in b[..k'];
        } else {
          assert NewlyLoaded(reg, mid, y);
        }
      }
    }
  }

  lemma OnBehalfAppend(reg: Registry, mid: Registry, a: seq<JsString>, b: seq<JsString>, ra: seq<JsString>, rb: seq<JsString>)
    requires Grows(reg, mid)
    requires OnBehalf(reg, a, ra) && OnBehalf(mid, b, rb)
    ensures OnBehalf(reg, a + b, ra + rb)
  {
    var xs := a + b;
    forall k | 0 <= k < |xs|
      ensures xs[k] in ra + rb || exists m :: k < m < |xs| && xs[k] in Names(Deps(reg, xs[m]))
    {
      if k < |a| {
        assert xs[k] == a[k];
        if a[k] !in ra {
          var m :| k < m < |a| && a[k] in Names(Deps(reg, a[m]));
          assert xs[m] == a[m];
        }
      } else {
        var k' := k - |a|;
        assert xs[k] == b[k'];
        if b[k'] !in rb {
          var m :| k' < m < |b| && b[k'] in Names(Deps(mid, b[m]));
          GrowsDeps(reg, mid, b[m]);
          assert xs[|a| + m] == b[m];
        }
      }
    }
  }

  lemma CoversAppend(reg: Registry, mid: Registry, a: seq<JsString>, b: seq<JsString>, ra: seq<JsString>, rb: seq<JsString>)
    requires Grows(reg, mid)
    requires forall x :: x in a <==> NewlyLoaded(reg, mid, x)
    requires Covers(reg, a, ra) && Covers(mid, b, rb)
    ensures Covers(reg, a + b, ra + rb)
  {
    var roots := ra + rb;
    forall j | 0 <= j < |roots| && roots[j] in reg && !reg[roots[j]].loaded
      ensures roots[j] in a + b
    {
      if j < |ra| {
        assert roots[j] == ra[j];
      } else {
        assert roots[j] == rb[j - |ra|];
        if mid[roots[j]].loaded {
          assert NewlyLoaded(reg, mid, roots[j]);
        }
      }
    }
  }

  /**
   * An order for `ra` followed, once its managers are loaded, by an order
   * for `rb` is an order for `ra + rb`.
   */
  lemma LoadsForAppend(reg: Registry, mid: Registry, a: seq<JsString>, b: seq<JsString>, ra: seq<JsString>, rb: seq<JsString>)
    requires Grows(reg, mid)
    requires forall x :: x in a <==> NewlyLoaded(reg, mid, x)
    requires LoadsFor(reg, a, ra) && LoadsFor(mid, b, rb)
    ensures LoadsFor(reg, a + b, ra + rb)
  {
    DependenciesFirstAppend(reg, mid, a, b);
    OnBehalfAppend(reg, mid, a, b, ra, rb);
    CoversAppend(reg, mid, a, b, ra, rb);
  }

  /** A root that is absent or already loaded adds nothing to load. */
  lemma LoadsForSkip(reg: Registry, xs: seq<JsString>, r: JsString, roots: seq<JsString>)
    requires r !in reg || reg[r].loaded
    requires LoadsFor(reg, xs, roots)
    ensures LoadsFor(reg, xs, [r] + roots)
  {
    forall j | 0 <= j < |[r] + roots| && ([r] + roots)[j] in reg && !reg[([r] + roots)[j]].loaded
      ensures ([r] + roots)[j] in xs
    {
      assert j > 0 && ([r] + roots)[j] == roots[j - 1];
    }
  }

  /**
   * For every `j`, some prefix of `xs` is an order for `deps[i..j]`: the
   * managers the first entries need are loaded before any that only a
   * later entry needs.
   */
  ghost predicate FollowsList(reg: Registry, xs: seq<JsString>, deps: seq<Attribute>, i: nat)
  {
    forall j :: i <= j <= |deps| ==> PrefixLoadsFor(reg, xs, Names(deps[i..j]))
  }

  /** Some prefix of `xs` is an order for `roots`. */
  ghost predicate PrefixLoadsFor(reg: Registry, xs: seq<JsString>, roots: seq<JsString>)
  {
    exists p :: 0 <= p <= |xs| && LoadsFor(reg, xs[..p], roots)
  }

  lemma FollowsListEnd(reg: Registry, xs: seq<JsString>, deps: seq<Attribute>)
    ensures FollowsList(reg, xs, deps, |deps|)
  {
    forall j | |deps| <= j <= |deps|
      ensures PrefixLoadsFor(reg, xs, Names(deps[|deps|..j]))
    {
      assert xs[..0] == [] && Names(deps[|deps|..j]) == [];
      assert LoadsFor(reg, xs[..0], Names(deps[|deps|..j]));
    }
  }

  /** Loading a pending `deps[i]` first and then following the rest of the list follows the list. */
  lemma FollowsListLoad(reg: Registry, mid: Registry, a: seq<JsString>, b: seq<JsString>, deps: seq<Attribute>, i: nat)
    requires i < |deps| && Grows(reg, mid)
    requires forall x :: x in a <==> NewlyLoaded(reg, mid, x)
    requires LoadsFor(reg, a, [Key(deps[i])]) && FollowsList(mid, b, deps, i + 1)
    ensures FollowsList(reg, a + b, deps, i)
  {
    forall j | i <= j <= |deps|
      ensures PrefixLoadsFor(reg, a + b, Names(deps[i..j]))
    {
      if j == i {
        assert (a + b)[..0] == [] && Names(deps[i..j]) == [];
        assert LoadsFor(reg, (a + b)[..0], Names(deps[i..j]));
      } else {
        var p' :| 0 <= p' <= |b| && LoadsFor(mid, b[..p'], Names(deps[i + 1..j]));
        NamesSlice(deps, i, j);
        LoadsForAppend(reg, mid, a, b[..p'], [Key(deps[i])], Names(deps[i + 1..j]));
        assert (a + b)[..|a| + p'] == a + b[..p'];
        assert LoadsFor(reg, (a + b)[..|a| + p'], Names(deps[i..j]));
      }
    }
  }

  /** Skipping a `deps[i]` that is absent or loaded and following the rest of the list follows the list. */
  lemma FollowsListSkip(reg: Registry, xs: seq<JsString>, deps: seq<Attribute>, i: nat)
    requires i < |deps| && !Pending(reg, deps, i)
    requires FollowsList(reg, xs, deps, i + 1)
    ensures FollowsList(reg, xs, deps, i)
  {
    forall j | i <= j <= |deps|
      ensures PrefixLoadsFor(reg, xs, Names(deps[i..j]))
    {
      if j == i {
        assert xs[..0] == [] && Names(deps[i..j]) == [];
        assert LoadsFor(reg, xs[..0], Names(deps[i..j]));
      } else {
        var p :| 0 <= p <= |xs| && LoadsFor(reg, xs[..p], Names(deps[i + 1..j]));
        NamesSlice(deps, i, j);
        LoadsForSkip(reg, xs[..p], Key(deps[i]), Names(deps[i + 1..j]));
        assert LoadsFor(reg, xs[..p], Names(deps[i..j]));
      }
    }
  }

  /** Marking `name` loaded after its dependencies' loop, with its own part last, keeps the trace. */
  lemma TracedLoad(reg: Registry, name: JsString, d: Outcome, o: Outcome)
    requires name in reg && !reg[name].loaded && Grows(reg, d.registry)
    requires Traced(reg, d) && !NewlyLoaded(reg, d.registry, name)
    requires o == Outcome(d.registry[name := Manager(reg[name].resources, true)], d.events + OwnEvents(name, reg[name].resources), d.order + [name])
    ensures Traced(reg, o)
  {
    BlocksAppend(reg, d.order, [name]);
    assert Blocks(reg, [name]) == OwnEvents(name, reg[name].resources) + [];
    forall x
      ensures x in o.order <==> NewlyLoaded(reg, o.registry, x)
    {
      if x != name {
        assert x in o.order <==> x in d.order;
      }
    }
    forall k, m | 0 <= k < m < |o.order|
      ensures o.order[k] != o.order[m]
    {
      if m == |d.order| {
        assert o.order[k] == d.order[k];
      } else {
        assert o.order[k] == d.order[k] && o.order[m] == d.order[m];
      }
    }
  }

  /** After its dependencies' loop, `name` last is an order for `name` alone. */
  lemma LoadsForLoad(reg: Registry, name: JsString, d: seq<JsString>, after: Registry)
    requires name in reg && !reg[name].loaded && Grows(reg, after)
    requires forall x :: x in d <==> NewlyLoaded(reg, after, x)
    requires LoadsFor(reg, d, Names(Deps(reg, name)))
    requires forall j :: 0 <= j < |Deps(reg, name)| && Key(Deps(reg, name)[j]) in reg ==> after[Key(Deps(reg, name)[j])].loaded
    ensures LoadsFor(reg, d + [name], [name])
  {
    var deps := reg[name].resources.dependencies;
    var xs := d + [name];
    forall k, j | 0 <= k < |xs| && 0 <= j < |Deps(reg, xs[k])| && Pending(reg, Deps(reg, xs[k]), j)
      ensures Key(Deps(reg, xs[k])[j]) in xs[..k]
    {
      if k < |d| {
        assert xs[k] == d[k] && xs[..k] == d[..k];
      } else {
        assert xs[k] == name && xs[..k] == d;
        assert NewlyLoaded(reg, after, Key(deps[j]));
      }
    }
    forall k | 0 <= k < |xs|
      ensures xs[k] in [name] || exists m :: k < m < |xs| && xs[k] in Names(Deps(reg, xs[m]))
    {
      if k < |d| {
        assert xs[k] == d[k];
        if d[k] in Names(deps) {
          assert xs[|d|] == name;
        } else {
          var m :| k < m < |d| && d[k] in Names(Deps(reg, d[m]));
          assert xs[m] == d[m];
        }
      }
    }
    assert xs[|d|] == name;
  }

  /**
   * `load` of the manager `name` issues the own part of each manager it
   * loads, in the order it loads them, each once and nothing else; every
   * manager comes after its unloaded dependencies, and only `name` and what
   * it needs are loaded, `name` last, after what its own dependency list
   * needs, in the order of that list.  That the dependencies follow their
   * own lists as well is `LoadOrdered`.
   */
  lemma {:induction false} LoadTrace(reg: Registry, name: JsString, rank: map<JsString, nat>)
    requires name in reg && Ranked(reg, rank)
    ensures var o := Load(reg, name, rank);
      Traced(reg, o) && LoadsFor(reg, o.order, [name])
      && (!reg[name].loaded ==> |o.order| > 0 && o.order[|o.order| - 1] == name
                                && FollowsList(reg, o.order[..|o.order| - 1], Deps(reg, name), 0))
    decreases if name in rank then rank[name] else 0, 1, 0
  {
    var o := Load(reg, name, rank);
    if !reg[name].loaded {
      var deps := reg[name].resources.dependencies;
      var d := LoadDependencies(reg, name, deps, 0, rank);
      DependenciesTrace(reg, name, deps, 0, rank);
      assert deps[0..] == deps;
      assert o == Outcome(d.registry[name := Manager(reg[name].resources, true)], d.events + OwnEvents(name, reg[name].resources), d.order + [name]);
      TracedLoad(reg, name, d, o);
      LoadsForLoad(reg, name, d.order, d.registry);
      assert o.order[..|o.order| - 1] == d.order;
    }
  }

  /**
   * The loop over `deps` from index `i` on issues the own parts of the
   * managers it loads, each once and nothing else, dependencies first.  It
   * follows the list: for every `j`, the managers loaded for `deps[i..j]`
   * come first, before any manager that only a later entry needs.
   */
  lemma {:induction false} DependenciesTrace(reg: Registry, name: JsString, deps: seq<Attribute>, i: nat, rank: map<JsString, nat>)
    requires name in reg && name in rank && Ranked(reg, rank) && i <= |deps|
    requires DepsBelow(reg, rank, deps, i, rank[name])
    ensures var o := LoadDependencies(reg, name, deps, i, rank);
      Traced(reg, o) && LoadsFor(reg, o.order, Names(deps[i..])) && FollowsList(reg, o.order, deps, i)
    decreases rank[name], 0, |deps| - i
  {
    var o := LoadDependencies(reg, name, deps, i, rank);
    if i == |deps| {
      FollowsListEnd(reg, o.order, deps);
      assert Names(deps[i..]) == [];
    } else if Pending(reg, deps, i) {
      var first := Load(reg, Key(deps[i]), rank);
      LoadTrace(reg, Key(deps[i]), rank);
      GrowsRanked(reg, first.registry, rank);
      GrowsDepsBelow(reg, first.registry, rank, deps, i + 1, rank[name]);
      var rest := LoadDependencies(first.registry, name, deps, i + 1, rank);
      DependenciesTrace(first.registry, name, deps, i + 1, rank);
      assert o == Outcome(rest.registry, first.events + rest.events, first.order + rest.order);
      TracedAppend(reg, first, rest);
      NamesSlice(deps, i, |deps|);
      assert deps[i..|deps|] == deps[i..] && deps[i + 1..|deps|] == deps[i + 1..];
      LoadsForAppend(reg, first.registry, first.order, rest.order, [Key(deps[i])], Names(deps[i + 1..]));
      FollowsListLoad(reg, first.registry, first.order, rest.order, deps, i);
    } else {
      DependenciesTrace(reg, name, deps, i + 1, rank);
      NamesSlice(deps, i, |deps|);
      assert deps[i..|deps|] == deps[i..] && deps[i + 1..|deps|] == deps[i + 1..];
      LoadsForSkip(reg, o.order, Key(deps[i]), Names(deps[i + 1..]));
      FollowsListSkip(reg, o.order, deps, i);
    }
  }

  // ------------------------------------------------------ nested list order

  /** `reg` with the managers `ys` marked loaded, as a `load` that loaded them in turn leaves it. */
  function LoadedAfter(reg: Registry, ys: seq<JsString>): (r: Registry)
    ensures r.Keys == reg.Keys
  {
    map x | x in reg :: if x in ys then Manager(reg[x].resources, true) else reg[x]
  }

  lemma LoadedAfterNone(reg: Registry)
    ensures LoadedAfter(reg, []) == reg
  {
  }

  /** Marking `a` and then `b` loaded is marking `a + b`, when `mid` is `reg` with exactly `a` newly loaded. */
  lemma LoadedAfterAppend(reg: Registry, mid: Registry, a: seq<JsString>, b: seq<JsString>)
    requires Grows(reg, mid)
    requires forall x :: x in a <==> NewlyLoaded(reg, mid, x)
    ensures LoadedAfter(mid, b) == LoadedAfter(reg, a + b)
  {
    forall x | x in reg
      ensures LoadedAfter(mid, b)[x] == LoadedAfter(reg, a + b)[x]
    {
      if x in a {
        assert NewlyLoaded(reg, mid, x);
      } else {
        assert !NewlyLoaded(reg, mid, x);
      }
    }
  }

  /**
   * `xs` is the order in which `load` of `name` marks managers loaded, as
   * a depth-first walk describes it: nothing for an absent or loaded
   * manager; otherwise an order for its dependency list, then `name`.
   */
  ghost predicate LoadOrder(reg: Registry, name: JsString, xs: seq<JsString>)
    decreases |xs|, 0, 0
  {
    if name !in reg || reg[name].loaded then xs == []
    else |xs| > 0 && xs[|xs| - 1] == name && ListOrder(reg, Deps(reg, name), 0, xs[..|xs| - 1])
  }

  /**
   * `xs` is the order for `deps[i..]`: it splits into the load order of
   * `deps[i]` and, in the registry that load leaves, the order for the
   * rest of the list.
   */
  ghost predicate ListOrder(reg: Registry, deps: seq<Attribute>, i: nat, xs: seq<JsString>)
    requires i <= |deps|
    decreases |xs|, 1, |deps| - i
  {
    if i == |deps| then xs == []
    else exists q :: 0 <= q <= |xs| && LoadOrder(reg, Key(deps[i]), xs[..q])
                     && ListOrder(LoadedAfter(reg, xs[..q]), deps, i + 1, xs[q..])
  }

  lemma SplitAt(xs: seq<JsString>, q: nat)
    requires q <= |xs|
    ensures xs == xs[..q] + xs[q..]
  {
  }

  /** Where the order for `deps[i..]` splits: the end of the load order of `deps[i]`. */
  lemma ListOrderSplit(reg: Registry, deps: seq<Attribute>, i: nat, xs: seq<JsString>) returns (q: nat)
    requires i < |deps| && ListOrder(reg, deps, i, xs)
    ensures q <= |xs| && |xs[..q]| == q && LoadOrder(reg, Key(deps[i]), xs[..q])
    ensures ListOrder(LoadedAfter(reg, xs[..q]), deps, i + 1, xs[q..])
  {
    q :| 0 <= q <= |xs| && LoadOrder(reg, Key(deps[i]), xs[..q])
         && ListOrder(LoadedAfter(reg, xs[..q]), deps, i + 1, xs[q..]);
  }

  /** A load order is unique: the walk leaves no choice. */
  lemma {:induction false} LoadOrderUnique(reg: Registry, name: JsString, xs: seq<JsString>, ys: seq<JsString>)
    requires LoadOrder(reg, name, xs) && LoadOrder(reg, name, ys)
    ensures xs == ys
    decreases |xs|, 0, 0
  {
    if name in reg && !reg[name].loaded {
      ListOrderUnique(reg, Deps(reg, name), 0, xs[..|xs| - 1], ys[..|ys| - 1]);
      assert xs == xs[..|xs| - 1] + [name] && ys == ys[..|ys| - 1] + [name];
    }
  }

  lemma {:induction false} ListOrderUnique(reg: Registry, deps: seq<Attribute>, i: nat, xs: seq<JsString>, ys: seq<JsString>)
    requires i <= |deps| && ListOrder(reg, deps, i, xs) && ListOrder(reg, deps, i, ys)
    ensures xs == ys
    decreases |xs|, 1, |deps| - i
  {
    if i < |deps| {
      var q := ListOrderSplit(reg, deps, i, xs);
      var q' := ListOrderSplit(reg, deps, i, ys);
      LoadOrderUnique(reg, Key(deps[i]), xs[..q], ys[..q']);
      ListOrderUnique(LoadedAfter(reg, xs[..q]), deps, i + 1, xs[q..], ys[q..]);
      SplitAt(xs, q);
      SplitAt(ys, q);
    }
  }

  /** The load order of `deps[i]` followed by an order for the rest of the list is an order for `deps[i..]`. */
  lemma ListOrderLoad(reg: Registry, mid: Registry, deps: seq<Attribute>, i: nat, a: seq<JsString>, b: seq<JsString>)
    requires i < |deps| && LoadOrder(reg, Key(deps[i]), a)
    requires mid == LoadedAfter(reg, a) && ListOrder(mid, deps, i + 1, b)
    ensures ListOrder(reg, deps, i, a + b)
  {
    assert (a + b)[..|a|] == a && (a + b)[|a|..] == b;
  }

  /** An entry that is absent or loaded adds nothing to the order. */
  lemma ListOrderSkip(reg: Registry, deps: seq<Attribute>, i: nat, xs: seq<JsString>)
    requires i < |deps| && !Pending(reg, deps, i) && ListOrder(reg, deps, i + 1, xs)
    ensures ListOrder(reg, deps, i, xs)
  {
    LoadedAfterNone(reg);
    assert xs[..0] == [] && xs[0..] == xs;
  }

  /** A `load` leaves the registry with exactly its order's managers marked loaded. */
  lemma LoadedAfterTraced(reg: Registry, o: Outcome)
    requires Grows(reg, o.registry) && Traced(reg, o)
    ensures o.registry == LoadedAfter(reg, o.order)
  {
    LoadedAfterAppend(reg, o.registry, o.order, []);
    LoadedAfterNone(o.registry);
    assert o.order + [] == o.order;
  }

  /** `load` leaves the registry with exactly the managers of its order marked loaded. */
  lemma LoadLeaves(reg: Registry, name: JsString, rank: map<JsString, nat>)
    requires name in reg && Ranked(reg, rank)
    ensures Load(reg, name, rank).registry == LoadedAfter(reg, Load(reg, name, rank).order)
  {
    LoadTrace(reg, name, rank);
    LoadedAfterTraced(reg, Load(reg, name, rank));
  }

  /**
   * The order in which `load` marks managers loaded is the load order:
   * every manager loaded on the way follows its own dependency list, entry
   * by entry, each entry's managers before the next entry's.
   */
  lemma {:induction false} LoadOrdered(reg: Registry, name: JsString, rank: map<JsString, nat>)
    requires name in reg && Ranked(reg, rank)
    ensures LoadOrder(reg, name, Load(reg, name, rank).order)
    decreases if name in rank then rank[name] else 0, 1, 0
  {
    var o := Load(reg, name, rank);
    if !reg[name].loaded {
      var deps := reg[name].resources.dependencies;
      var d := LoadDependencies(reg, name, deps, 0, rank);
      DependenciesOrdered(reg, name, deps, 0, rank);
      assert o.order == d.order + [name];
      assert o.order[..|o.order| - 1] == d.order;
    }
  }

  /** The same for the loop over a dependency list from index `i` on. */
  lemma {:induction false} DependenciesOrdered(reg: Registry, name: JsString, deps: seq<Attribute>, i: nat, rank: map<JsString, nat>)
    requires name in reg && name in rank && Ranked(reg, rank) && i <= |deps|
    requires DepsBelow(reg, rank, deps, i, rank[name])
    ensures ListOrder(reg, deps, i, LoadDependencies(reg, name, deps, i, rank).order)
    decreases rank[name], 0, |deps| - i
  {
    if i < |deps| && Pending(reg, deps, i) {
      var first := Load(reg, Key(deps[i]), rank);
      LoadOrdered(reg, Key(deps[i]), rank);
      GrowsRanked(reg, first.registry, rank);
      GrowsDepsBelow(reg, first.registry, rank, deps, i + 1, rank[name]);
      DependenciesOrdered(first.registry, name, deps, i + 1, rank);
      DependenciesOrderedStep(reg, name, deps, i, rank);
    } else if i < |deps| {
      DependenciesOrdered(reg, name, deps, i + 1, rank);
      ListOrderSkip(reg, deps, i, LoadDependencies(reg, name, deps, i, rank).order);
    }
  }

  /**
   * One pass of the loop over a pending `deps[i]`: the load order of the
   * entry, then the order the rest of the loop follows.
   */
  lemma DependenciesOrderedStep(reg: Registry, name: JsString, deps: seq<Attribute>, i: nat, rank: map<JsString, nat>)
    requires name in reg && name in rank && Ranked(reg, rank) && i < |deps| && Pending(reg, deps, i)
    requires DepsBelow(reg, rank, deps, i, rank[name])
    requires var first := Load(reg, Key(deps[i]), rank);
      LoadOrder(reg, Key(deps[i]), first.order)
      && Ranked(first.registry, rank) && DepsBelow(first.registry, rank, deps, i + 1, rank[name])
      && ListOrder(first.registry, deps, i + 1, LoadDependencies(first.registry, name, deps, i + 1, rank).order)
    ensures ListOrder(reg, deps, i, LoadDependencies(reg, name, deps, i, rank).order)
  {
    var first := Load(reg, Key(deps[i]), rank);
    var rest := LoadDependencies(first.registry, name, deps, i + 1, rank);
    LoadLeaves(reg, Key(deps[i]), rank);
    assert LoadDependencies(reg, name, deps, i, rank).order == first.order + rest.order;
    ListOrderLoad(reg, first.registry, deps, i, first.order, rest.order);
  }

  /** Only the roots and what members of `s` depend on can be in an order for roots in `s`. */
  lemma {:induction false} OnBehalfWithin(reg: Registry, xs: seq<JsString>, roots: seq<JsString>, s: set<JsString>, k: nat)
    requires OnBehalf(reg, xs, roots) && k <= |xs|
    requires forall r :: r in roots ==> r in s
    requires forall x, y :: x in s && y in Names(Deps(reg, x)) ==> y in s
    ensures forall n :: k <= n < |xs| ==> xs[n] in s
    decreases |xs| - k
  {
    if k < |xs| {
      OnBehalfWithin(reg, xs, roots, s, k + 1);
      if xs[k] !in roots {
        var m :| k < m < |xs| && xs[k] in Names(Deps(reg, xs[m]));
      }
    }
  }

  lemma DependencyBefore(reg: Registry, xs: seq<JsString>, k: nat, j: nat)
    requires DependenciesFirst(reg, xs) && k < |xs| && j < |Deps(reg, xs[k])| && Pending(reg, Deps(reg, xs[k]), j)
    ensures Key(Deps(reg, xs[k])[j]) in xs[..k]
  {
  }

  lemma CoversRoot(reg: Registry, xs: seq<JsString>, roots: seq<JsString>, j: nat)
    requires Covers(reg, xs, roots) && j < |roots| && roots[j] in reg && !reg[roots[j]].loaded
    ensures roots[j] in xs
  {
  }

  /** Among three names, each `a` or `b`, two are equal. */
  lemma ThreeOfTwo(d: seq<JsString>, a: JsString, b: JsString)
    requires |d| > 2 && forall k :: 0 <= k < |d| ==> d[k] == a || d[k] == b
    ensures !Distinct(d)
  {
    assert d[0] == a || d[0] == b;
    assert d[1] == a || d[1] == b;
    assert d[2] == a || d[2] == b;
    if d[0] != d[1] && d[0] != d[2] {
      assert d[1] == d[2];
    }
  }

  /** A sequence of distinct names, each `a` or `b`, holding both, is `[a, b]` or `[b, a]`. */
  lemma DistinctPair(d: seq<JsString>, a: JsString, b: JsString)
    requires Distinct(d) && a in d && b in d && a != b
    requires forall k :: 0 <= k < |d| ==> d[k] == a || d[k] == b
    ensures d == [a, b] || d == [b, a]
  {
    if |d| > 2 {
      ThreeOfTwo(d, a, b);
      assert false;
    }
  }

  /** `m`, `a` and `b` depend on nothing outside themselves. */
  lemma ClosedThree(reg: Registry, m: JsString, a: JsString, b: JsString)
    requires Deps(reg, m) == [Some(a), Some(b)] && Deps(reg, a) == [] && Deps(reg, b) == []
    ensures forall x, y :: x in {a, b, m} && y in Names(Deps(reg, x)) ==> y in {a, b, m}
  {
    assert Names(Deps(reg, m)) == [a, b];
  }

  /** Both dependencies of `m` come before it. */
  lemma TwoDependenciesBefore(reg: Registry, xs: seq<JsString>, m: JsString, a: JsString, b: JsString)
    requires a in reg && b in reg && !reg[a].loaded && !reg[b].loaded && Deps(reg, m) == [Some(a), Some(b)]
    requires DependenciesFirst(reg, xs) && |xs| > 0 && xs[|xs| - 1] == m
    ensures a in xs[..|xs| - 1] && b in xs[..|xs| - 1]
  {
    assert Pending(reg, Deps(reg, m), 0) && Pending(reg, Deps(reg, m), 1);
    DependencyBefore(reg, xs, |xs| - 1, 0);
    DependencyBefore(reg, xs, |xs| - 1, 1);
  }

  /** Loading `m` loads nothing but `m`, `a` and `b`. */
  lemma WithinThree(reg: Registry, xs: seq<JsString>, m: JsString, a: JsString, b: JsString)
    requires Deps(reg, m) == [Some(a), Some(b)] && Deps(reg, a) == [] && Deps(reg, b) == []
    requires OnBehalf(reg, xs, [m])
    ensures forall k :: 0 <= k < |xs| ==> xs[k] in {a, b, m}
  {
    ClosedThree(reg, m, a, b);
    OnBehalfWithin(reg, xs, [m], {a, b, m}, 0);
  }

  /** Distinct names from `a`, `b`, `m`, ending in `m`: before it come only `a` and `b`. */
  lemma BeforeLast(xs: seq<JsString>, m: JsString, a: JsString, b: JsString)
    requires Distinct(xs) && |xs| > 0 && xs[|xs| - 1] == m
    requires forall k :: 0 <= k < |xs| ==> xs[k] in {a, b, m}
    ensures forall k :: 0 <= k < |xs| - 1 ==> xs[k] == a || xs[k] == b
  {
    forall k | 0 <= k < |xs| - 1
      ensures xs[k] == a || xs[k] == b
    {
      assert xs[k] in {a, b, m} && xs[k] != xs[|xs| - 1];
    }
  }

  /** Before `m` come its two dependencies, and nothing else. */
  lemma TwoBeforeMembers(reg: Registry, xs: seq<JsString>, m: JsString, a: JsString, b: JsString)
    requires a in reg && b in reg && !reg[a].loaded && !reg[b].loaded
    requires Deps(reg, m) == [Some(a), Some(b)] && Deps(reg, a) == [] && Deps(reg, b) == []
    requires LoadsFor(reg, xs, [m]) && Distinct(xs) && |xs| > 0 && xs[|xs| - 1] == m
    ensures a in xs[..|xs| - 1] && b in xs[..|xs| - 1]
    ensures forall k :: 0 <= k < |xs| - 1 ==> xs[k] == a || xs[k] == b
  {
    WithinThree(reg, xs, m, a, b);
    TwoDependenciesBefore(reg, xs, m, a, b);
    BeforeLast(xs, m, a, b);
  }

  /** The two dependencies of `m`, and only they, come before it. */
  lemma TwoBefore(reg: Registry, xs: seq<JsString>, m: JsString, a: JsString, b: JsString)
    requires m in reg && a in reg && b in reg && m != a && m != b && a != b
    requires !reg[a].loaded && !reg[b].loaded
    requires Deps(reg, m) == [Some(a), Some(b)] && Deps(reg, a) == [] && Deps(reg, b) == []
    requires LoadsFor(reg, xs, [m]) && Distinct(xs) && |xs| > 0 && xs[|xs| - 1] == m
    ensures |xs| == 3 && (xs[..2] == [a, b] || xs[..2] == [b, a])
  {
    var d := xs[..|xs| - 1];
    TwoBeforeMembers(reg, xs, m, a, b);
    assert Distinct(d) by {
      assert forall k :: 0 <= k < |d| ==> d[k] == xs[k];
    }
    DistinctPair(d, a, b);
  }

  lemma BlocksOfThree(reg: Registry, a: JsString, b: JsString, m: JsString)
    requires a in reg && b in reg && m in reg
    ensures Blocks(reg, [a, b, m]) == OwnEvents(a, reg[a].resources) + OwnEvents(b, reg[b].resources) + OwnEvents(m, reg[m].resources)
  {
    assert Blocks(reg, [m]) == OwnEvents(m, reg[m].resources) + [];
    assert [a, b, m][1..] == [b, m] && [b, m][1..] == [m];
  }

  /** When the list names `a` first and neither entry has dependencies, `a` comes first. */
  lemma FirstOfTwo(reg: Registry, d: seq<JsString>, a: JsString, b: JsString, deps: seq<Attribute>)
    requires a in reg && b in reg && a != b && !reg[a].loaded
    requires deps == [Some(a), Some(b)] && Deps(reg, a) == [] && Deps(reg, b) == []
    requires d == [a, b] || d == [b, a]
    requires FollowsList(reg, d, deps, 0)
    ensures d == [a, b]
  {
    assert PrefixLoadsFor(reg, d, Names(deps[0..1]));
    var p :| 0 <= p <= |d| && LoadsFor(reg, d[..p], Names(deps[0..1]));
    assert Names(deps[0..1]) == [a];
    CoversRoot(reg, d[..p], [a], 0);
    OnBehalfWithin(reg, d[..p], [a], {a}, 0);
    assert |d[..p]| > 0 && d[..p][0] == d[0];
  }

  /** The order in which loading `m` marks managers loaded is `a`, `b`, `m`. */
  lemma OrderOfTwo(reg: Registry, xs: seq<JsString>, m: JsString, a: JsString, b: JsString)
    requires m in reg && a in reg && b in reg && m != a && m != b && a != b
    requires !reg[a].loaded && !reg[b].loaded
    requires Deps(reg, m) == [Some(a), Some(b)] && Deps(reg, a) == [] && Deps(reg, b) == []
    requires LoadsFor(reg, xs, [m]) && Distinct(xs) && |xs| > 0 && xs[|xs| - 1] == m
    requires FollowsList(reg, xs[..|xs| - 1], Deps(reg, m), 0)
    ensures xs == [a, b, m]
  {
    TwoBefore(reg, xs, m, a, b);
    assert xs[..|xs| - 1] == xs[..2];
    FirstOfTwo(reg, xs[..2], a, b, Deps(reg, m));
    assert xs == xs[..2] + [m];
  }

  /**
   * A manager whose dependency list names `a` and then `b`, neither of
   * which has dependencies, loads `a`'s own part, then `b`'s, then its own.
   */
  lemma LoadTwoDependencies(reg: Registry, m: JsString, a: JsString, b: JsString, rank: map<JsString, nat>)
    requires m in reg && a in reg && b in reg && m != a && m != b && a != b
    requires !reg[m].loaded && !reg[a].loaded && !reg[b].loaded && Ranked(reg, rank)
    requires Deps(reg, m) == [Some(a), Some(b)] && Deps(reg, a) == [] && Deps(reg, b) == []
    ensures Load(reg, m, rank).events
         == OwnEvents(a, reg[a].resources) + OwnEvents(b, reg[b].resources) + OwnEvents(m, reg[m].resources)
  {
    var o := Load(reg, m, rank);
    LoadTrace(reg, m, rank);
    OrderOfTwo(reg, o.order, m, a, b);
    BlocksOfThree(reg, a, b, m);
  }

  /** A manager with no dependencies, not loaded yet, loads alone. */
  lemma LeafOrder(reg: Registry, x: JsString)
    requires x in reg && !reg[x].loaded && Deps(reg, x) == []
    ensures LoadOrder(reg, x, [x])
  {
    assert [x][..0] == [];
  }

  /** The load order of the last entry alone is an order for the last entry. */
  lemma ListOrderLast(reg: Registry, deps: seq<Attribute>, xs: seq<JsString>)
    requires |deps| > 0 && LoadOrder(reg, Key(deps[|deps| - 1]), xs)
    ensures ListOrder(reg, deps, |deps| - 1, xs)
  {
    ListOrderLoad(reg, LoadedAfter(reg, xs), deps, |deps| - 1, xs, []);
    assert xs + [] == xs;
  }

  /** An order for a manager's own list, then the manager: its load order. */
  lemma LoadOrderOf(reg: Registry, x: JsString, ys: seq<JsString>)
    requires x in reg && !reg[x].loaded && ListOrder(reg, Deps(reg, x), 0, ys)
    ensures LoadOrder(reg, x, ys + [x])
  {
    assert (ys + [x])[..|ys|] == ys;
  }

  /** `c` and then `d`, neither with dependencies: the order for the list is `c`, `d`. */
  lemma OrderOfPair(reg: Registry, c: JsString, d: JsString)
    requires c in reg && d in reg && c != d && !reg[c].loaded && !reg[d].loaded
    requires Deps(reg, c) == [] && Deps(reg, d) == []
    ensures ListOrder(reg, [Some(c), Some(d)], 0, [c, d])
  {
    var deps := [Some(c), Some(d)];
    var r1 := LoadedAfter(reg, [c]);
    LeafOrder(reg, c);
    assert r1[d] == reg[d];
    LeafOrder(r1, d);
    ListOrderLast(r1, deps, [d]);
    ListOrderLoad(reg, r1, deps, 0, [c], [d]);
    assert [c] + [d] == [c, d];
  }

  /** `a` depends on `c` and then `d`, neither with dependencies: the load order is `c`, `d`, `a`. */
  lemma OrderOfMiddle(reg: Registry, a: JsString, c: JsString, d: JsString)
    requires a in reg && c in reg && d in reg && c != d
    requires !reg[a].loaded && !reg[c].loaded && !reg[d].loaded
    requires Deps(reg, a) == [Some(c), Some(d)] && Deps(reg, c) == [] && Deps(reg, d) == []
    ensures LoadOrder(reg, a, [c, d, a])
  {
    OrderOfPair(reg, c, d);
    LoadOrderOf(reg, a, [c, d]);
    assert [c, d] + [a] == [c, d, a];
  }

  /** `m` depends on `a`, and `a` on `c` and then `d`: the load order is `c`, `d`, `a`, `m`. */
  lemma OrderOfNested(reg: Registry, m: JsString, a: JsString, c: JsString, d: JsString)
    requires m in reg && a in reg && c in reg && d in reg && c != d
    requires !reg[m].loaded && !reg[a].loaded && !reg[c].loaded && !reg[d].loaded
    requires Deps(reg, m) == [Some(a)] && Deps(reg, a) == [Some(c), Some(d)] && Deps(reg, c) == [] && Deps(reg, d) == []
    ensures LoadOrder(reg, m, [c, d, a, m])
  {
    OrderOfMiddle(reg, a, c, d);
    ListOrderLast(reg, [Some(a)], [c, d, a]);
    LoadOrderOf(reg, m, [c, d, a]);
    assert [c, d, a] + [m] == [c, d, a, m];
  }

  lemma BlocksOfFour(reg: Registry, c: JsString, d: JsString, a: JsString, m: JsString)
    requires c in reg && d in reg && a in reg && m in reg
    ensures Blocks(reg, [c, d, a, m])
         == OwnEvents(c, reg[c].resources) + OwnEvents(d, reg[d].resources) + OwnEvents(a, reg[a].resources) + OwnEvents(m, reg[m].resources)
  {
    BlocksOfThree(reg, d, a, m);
    assert [c, d, a, m][1..] == [d, a, m];
  }

  /**
   * `m` depends on `a`, and `a` on `c` and then `d`: `load` of `m` issues
   * the own parts of `c`, `d`, `a` and `m`, in that order.  A dependency's
   * own list is followed in order too, not only the first manager's.
   */
  lemma LoadNestedDependencies(reg: Registry, m: JsString, a: JsString, c: JsString, d: JsString, rank: map<JsString, nat>)
    requires m in reg && a in reg && c in reg && d in reg
    requires m != a && m != c && m != d && a != c && a != d && c != d
    requires !reg[m].loaded && !reg[a].loaded && !reg[c].loaded && !reg[d].loaded && Ranked(reg, rank)
    requires Deps(reg, m) == [Some(a)] && Deps(reg, a) == [Some(c), Some(d)] && Deps(reg, c) == [] && Deps(reg, d) == []
    ensures Load(reg, m, rank).order == [c, d, a, m]
    ensures Load(reg, m, rank).events
         == OwnEvents(c, reg[c].resources) + OwnEvents(d, reg[d].resources) + OwnEvents(a, reg[a].resources) + OwnEvents(m, reg[m].resources)
  {
    var o := Load(reg, m, rank);
    OrderOfNested(reg, m, a, c, d);
    LoadOrdered(reg, m, rank);
    LoadOrderUnique(reg, m, o.order, [c, d, a, m]);
    LoadTrace(reg, m, rank);
    BlocksOfFour(reg, c, d, a, m);
  }

  /** A second `load` issues no event and changes nothing. */
  lemma LoadTwice(reg: Registry, name: JsString, rank: map<JsString, nat>)
    requires name in reg && Ranked(reg, rank)
    ensures var once := Load(reg, name, rank);
      Ranked(once.registry, rank) && Load(once.registry, name, rank) == Outcome(once.registry, [], [])
  {
    GrowsRanked(reg, Load(reg, name, rank).registry, rank);
  }

  /** After `load` of a manager not yet loaded, every dependency of it the registry has is loaded too. */
  lemma LoadLoadsDependencies(reg: Registry, name: JsString, rank: map<JsString, nat>)
    requires name in reg && !reg[name].loaded && Ranked(reg, rank)
    ensures var after := Load(reg, name, rank).registry;
      forall j :: 0 <= j < |reg[name].resources.dependencies| && Key(reg[name].resources.dependencies[j]) in reg
        ==> after[Key(reg[name].resources.dependencies[j])].loaded
  {
    var deps := LoadDependencies(reg, name, reg[name].resources.dependencies, 0, rank);
    assert Load(reg, name, rank).registry == deps.registry[name := Manager(deps.registry[name].resources, true)];
  }

  /**
   * Two managers, neither loaded, that depend on each other admit no rank:
   * `load` of either would recurse without end, since `loaded` is only set
   * after the dependencies are loaded.
   */
  lemma CycleHasNoRank(reg: Registry, a: JsString, b: JsString, i: nat, j: nat, rank: map<JsString, nat>)
    requires a in reg && b in reg && !reg[a].loaded && !reg[b].loaded
    requires i < |reg[a].resources.dependencies| && Key(reg[a].resources.dependencies[i]) == b
    requires j < |reg[b].resources.dependencies| && Key(reg[b].resources.dependencies[j]) == a
    ensures !Ranked(reg, rank)
  {
    if Ranked(reg, rank) {
      RankBelow(reg, rank, a, i);
      RankBelow(reg, rank, b, j);
      assert false;
    }
  }

  /** In a ranking, a pending dependency ranks below the manager that has it. */
  lemma RankBelow(reg: Registry, rank: map<JsString, nat>, a: JsString, i: nat)
    requires Ranked(reg, rank) && a in reg && !reg[a].loaded
    requires i < |reg[a].resources.dependencies| && Pending(reg, reg[a].resources.dependencies, i)
    ensures a in rank && Key(reg[a].resources.dependencies[i]) in rank
    ensures rank[Key(reg[a].resources.dependencies[i])] < rank[a]
  {
  }

  // ------------------------------------------------------- loadFromXmlNode

  /**
   * An XML node: its `nodeName`, its attributes, its child nodes in document
   * order and its `nodeValue` (the text of a text node, null for an element).
   */
  datatype Node = Node(name: JsString, attributes: map<JsString, JsString>, children: seq<Node>, value: Attribute)

  function GetAttribute(node: Node, attribute: JsString): Attribute
  {
    if attribute in node.attributes then Some(node.attributes[attribute]) else None
  }

  /** A string or null as a condition: null and the empty string are false. */
  predicate Truthy(a: Attribute)
  {
    a.Some? && |a.value| > 0
  }

  /** `node.firstChild.nodeValue` of a node without children: reading a property of null. */
  datatype XmlError = TypeError

  /** What one child of a `resources` node registers: a `js` child a JS file, a `css` child a style sheet. */
  function ResourceRegistration(c: Node): seq<Registration>
  {
    if c.name == JsTag then [AddJs(GetAttribute(c, FileAttribute), GetAttribute(c, ClassNameAttribute))]
    else if c.name == CssTag then [AddCss(GetAttribute(c, FileAttribute))]
    else []
  }

  /** The registrations the children of a `resources` node make, in document order. */
  function ResourceRegistrations(children: seq<Node>): seq<Registration>
  {
    if |children| == 0 then [] else ResourceRegistration(children[0]) + ResourceRegistrations(children[1..])
  }

  /** What one child of a `dependencies` node registers: a `pluginResources` child its plugin name. */
  function DependencyRegistration(c: Node): seq<Registration>
  {
    if c.name == PluginResourcesTag then [AddDep(GetAttribute(c, PluginNameAttribute))] else []
  }

  /** The registrations the children of a `dependencies` node make, in document order. */
  function DependencyRegistrations(children: seq<Node>): seq<Registration>
  {
    if |children| == 0 then [] else DependencyRegistration(children[0]) + DependencyRegistrations(children[1..])
  }

  /**
   * The registrations `loadFromXmlNode` makes, `theme` being the value of
   * the `theme` parameter (`None` when it has none).
   */
  function XmlRegistrations(node: Node, theme: Attribute): Result<seq<Registration>, XmlError>
  {
    if node.name == ResourcesTag then Success(ResourceRegistrations(node.children))
    else if node.name == DependenciesTag then Success(DependencyRegistrations(node.children))
    else if node.name == ClientFormTag then
      var formTheme := GetAttribute(node, ThemeAttribute);
      if !Truthy(formTheme) || formTheme == theme then
        if |node.children| == 0 then Failure(TypeError)
        else
          var formId := GetAttribute(node, IdAttribute);
          if Truthy(formId) then Success([AddForm(formId.value, node.children[0].value)]) else Success([])
      else Success([])
    else Success([])
  }

  function LoadFromXmlNode(res: Resources, node: Node, theme: Attribute): Result<Resources, XmlError>
  {
    match XmlRegistrations(node, theme)
    case Success(ops) => Success(RegisterAll(res, ops))
    case Failure(e) => Failure(e)
  }

  lemma {:induction false} RegisterAllAppend(res: Resources, a: seq<Registration>, b: seq<Registration>)
    ensures RegisterAll(res, a + b) == RegisterAll(RegisterAll(res, a), b)
    decreases |a|
  {
    if |a| > 0 {
      assert (a + b)[1..] == a[1..] + b;
      RegisterAllAppend(Register(res, a[0]), a[1..], b);
    } else {
      assert a + b == b;
    }
  }

  /** A `js` child as a JS resource. */
  function JsChild(c: Node): seq<JsResource>
  {
    if c.name == JsTag then [JsResource(GetAttribute(c, FileAttribute), GetAttribute(c, ClassNameAttribute))] else []
  }

  /** The `js` children of a node as JS resources, in document order. */
  function JsChildren(children: seq<Node>): seq<JsResource>
  {
    if |children| == 0 then [] else JsChild(children[0]) + JsChildren(children[1..])
  }

  /** The `file` attribute of a `css` child. */
  function CssChild(c: Node): seq<Attribute>
  {
    if c.name == CssTag then [GetAttribute(c, FileAttribute)] else []
  }

  /** The `file` attributes of the `css` children of a node, in document order. */
  function CssChildren(children: seq<Node>): seq<Attribute>
  {
    if |children| == 0 then [] else CssChild(children[0]) + CssChildren(children[1..])
  }

  /** The `pluginName` attribute of a `pluginResources` child. */
  function PluginChild(c: Node): seq<Attribute>
  {
    if c.name == PluginResourcesTag then [GetAttribute(c, PluginNameAttribute)] else []
  }

  /** The `pluginName` attributes of the `pluginResources` children of a node, in document order. */
  function PluginChildren(children: seq<Node>): seq<Attribute>
  {
    if |children| == 0 then [] else PluginChild(children[0]) + PluginChildren(children[1..])
  }

  lemma TagsDiffer()
    ensures JsTag != CssTag
  {
    assert |JsTag| == 2 && |CssTag| == 3;
  }

  lemma ResourceChild(res: Resources, c: Node)
    ensures RegisterAll(res, ResourceRegistration(c)) == res.(js := res.js + JsChild(c), css := res.css + CssChild(c))
  {
    TagsDiffer();
    if c.name != JsTag && c.name != CssTag {
      assert res.js + [] == res.js && res.css + [] == res.css;
    }
  }

  lemma DependencyChild(res: Resources, c: Node)
    ensures RegisterAll(res, DependencyRegistration(c)) == res.(dependencies := res.dependencies + PluginChild(c))
  {
    if c.name != PluginResourcesTag {
      assert res.dependencies + [] == res.dependencies;
    }
  }

  /**
   * A `resources` node appends its `js` children to the JS files and its
   * `css` children to the style sheets, each in document order, and
   * registers nothing else.
   */
  lemma {:induction false} ResourcesNode(res: Resources, children: seq<Node>)
    ensures RegisterAll(res, ResourceRegistrations(children))
         == res.(js := res.js + JsChildren(children), css := res.css + CssChildren(children))
    decreases |children|
  {
    if |children| == 0 {
      assert res.js + [] == res.js && res.css + [] == res.css;
    } else {
      var c, rest := children[0], children[1..];
      RegisterAllAppend(res, ResourceRegistration(c), ResourceRegistrations(rest));
      ResourceChild(res, c);
      var next := res.(js := res.js + JsChild(c), css := res.css + CssChild(c));
      ResourcesNode(next, rest);
      assert JsChildren(children) == JsChild(c) + JsChildren(rest);
      assert CssChildren(children) == CssChild(c) + CssChildren(rest);
      assert next.js + JsChildren(rest) == res.js + (JsChild(c) + JsChildren(rest));
      assert next.css + CssChildren(rest) == res.css + (CssChild(c) + CssChildren(rest));
    }
  }

  /** A `dependencies` node appends the names of its `pluginResources` children, in document order, and nothing else. */
  lemma {:induction false} DependenciesNode(res: Resources, children: seq<Node>)
    ensures RegisterAll(res, DependencyRegistrations(children)) == res.(dependencies := res.dependencies + PluginChildren(children))
    decreases |children|
  {
    if |children| == 0 {
      assert res.dependencies + [] == res.dependencies;
    } else {
      var c, rest := children[0], children[1..];
      RegisterAllAppend(res, DependencyRegistration(c), DependencyRegistrations(rest));
      DependencyChild(res, c);
      var next := res.(dependencies := res.dependencies + PluginChild(c));
      DependenciesNode(next, rest);
      assert PluginChildren(children) == PluginChild(c) + PluginChildren(rest);
      assert next.dependencies + PluginChildren(rest) == res.dependencies + (PluginChild(c) + PluginChildren(rest));
    }
  }

  lemma TagNames()
    ensures ResourcesTag != DependenciesTag && ResourcesTag != ClientFormTag
    ensures DependenciesTag != ClientFormTag
  {
    assert |ResourcesTag| == 9 && |DependenciesTag| == 12 && |ClientFormTag| == 10;
  }

  /**
   * `loadFromXmlNode` sorts nodes by name: `resources` registers JS files
   * and style sheets, `dependencies` plugin names, and any other name but
   * `clientForm` nothing.
   */
  lemma XmlNodeKinds(res: Resources, node: Node, theme: Attribute)
    ensures node.name == ResourcesTag ==>
      LoadFromXmlNode(res, node, theme) == Success(res.(js := res.js + JsChildren(node.children), css := res.css + CssChildren(node.children)))
    ensures node.name == DependenciesTag ==>
      LoadFromXmlNode(res, node, theme) == Success(res.(dependencies := res.dependencies + PluginChildren(node.children)))
    ensures node.name !in {ResourcesTag, DependenciesTag, ClientFormTag} ==> LoadFromXmlNode(res, node, theme) == Success(res)
  {
    TagNames();
    ResourcesNode(res, node.children);
    DependenciesNode(res, node.children);
  }

  /**
   * A `clientForm` node whose theme is absent, empty or the current one
   * adds its first child's text under its id, when the id is not empty; it
   * fails when it has no child.  A form of another theme adds nothing.
   */
  lemma ClientFormNode(res: Resources, node: Node, theme: Attribute)
    requires node.name == ClientFormTag
    ensures var formTheme := GetAttribute(node, ThemeAttribute);
      var formId := GetAttribute(node, IdAttribute);
      LoadFromXmlNode(res, node, theme)
      == if Truthy(formTheme) && formTheme != theme then Success(res)
         else if |node.children| == 0 then Failure(TypeError)
         else if Truthy(formId) then Success(AddGuiForm(res, formId.value, node.children[0].value))
         else Success(res)
  {
    TagNames();
    var formId := GetAttribute(node, IdAttribute);
    if |node.children| > 0 && Truthy(formId) {
      var op := AddForm(formId.value, node.children[0].value);
      assert RegisterAll(res, [op]) == RegisterAll(Register(res, op), []);
    }
  }
}
