/** The pipeline engine: a fixed order of stages, each optional, fed the
    context the analysis produced; and the registry that turns component
    names into components. Images and context values are type parameters,
    so the engine is modelled whatever the components do. */
module Engine {
  import opened Results

  // ---------------------------------------------------------------------
  // Running a pipeline

  /** The stages after analysis, in the order `run_pipeline` runs them. */
  datatype Stage = Preprocess | Style | Background | Postprocess

  const Order: seq<Stage> := [Preprocess, Style, Background, Postprocess]

  /** A stage's position in `Order`. */
  function Rank(s: Stage): (n: nat)
    ensures n < |Order| && Order[n] == s
  {
    match s
    case Preprocess => 0
    case Style => 1
    case Background => 2
    case Postprocess => 3
  }

  /** A pipeline configuration. A stage whose key is missing and one whose
      value is None are both skipped, so both are "absent" here. */
  datatype Config<!I, !V> = Config(analysis: Option<I -> map<string, V>>,
                                 stages: map<Stage, (I, map<string, V>) -> I>)

  /** The context the later stages see: the analysis result merged into an
      empty dictionary, i.e. that result, or empty without analysis. */
  function Ctx<I, V>(c: Config<I, V>, img: I): (ctx: map<string, V>)
    ensures c.analysis.None? ==> ctx == map[]
    ensures c.analysis.Some? ==> ctx == c.analysis.value(img)
  {
    match c.analysis
    case None => map[]
    case Some(f) => map[] + f(img)
  }

  predicate Increasing(ss: seq<Stage>) {
    forall i, j :: 0 <= i < j < |ss| ==> Rank(ss[i]) < Rank(ss[j])
  }

  /** The stages of `ss` the configuration holds, in the order of `ss`. */
  function Selected<I, V>(c: Config<I, V>, ss: seq<Stage>): (r: seq<Stage>)
    ensures forall s :: s in r ==> s in ss && s in c.stages
    ensures |r| <= |ss|
  {
    if ss == [] then []
    else
      var rest := Selected(c, ss[1..]);
      if ss[0] in c.stages then [ss[0]] + rest else rest
  }

  /** Every stage of `ss` the configuration holds is selected. */
  lemma {:induction false} SelectedHolds<I, V>(c: Config<I, V>, ss: seq<Stage>, s: Stage)
    requires s in ss && s in c.stages
    ensures s in Selected(c, ss)
    decreases |ss|
  {
    if ss[0] != s {
      assert s in ss[1..];
      SelectedHolds(c, ss[1..], s);
    }
  }

  /** Selection keeps the order of `ss`. */
  lemma {:induction false} SelectedIncreasing<I, V>(c: Config<I, V>, ss: seq<Stage>)
    requires Increasing(ss)
    ensures Increasing(Selected(c, ss))
    decreases |ss|
  {
    if ss != [] {
      var rest := Selected(c, ss[1..]);
      assert Increasing(ss[1..]);
      SelectedIncreasing(c, ss[1..]);
      if ss[0] in c.stages {
        forall t | t in rest ensures Rank(ss[0]) < Rank(t) {
          var k :| 0 <= k < |ss[1..]| && ss[1..][k] == t;
          assert ss[k + 1] == t;
        }
        PrependIncreasing(ss[0], rest);
      }
    }
  }

  lemma PrependIncreasing(x: Stage, rest: seq<Stage>)
    requires Increasing(rest) && forall t :: t in rest ==> Rank(x) < Rank(t)
    ensures Increasing([x] + rest)
  {
    var r := [x] + rest;
    forall i, j | 0 <= i < j < |r| ensures Rank(r[i]) < Rank(r[j]) {
      assert r[j] == rest[j - 1];
      if i > 0 {
        assert r[i] == rest[i - 1];
      }
    }
  }

  /** The image after applying the stages `ss` in turn, each given the
      current image and the context. */
  function Apply<I, V>(c: Config<I, V>, ss: seq<Stage>, img: I, ctx: map<string, V>): I
    requires forall s :: s in ss ==> s in c.stages
  {
    if ss == [] then img
    else Apply(c, ss[1..], c.stages[ss[0]](img, ctx), ctx)
  }

  /** What `run_pipeline` returns. */
  function Run<I, V>(c: Config<I, V>, img: I): I {
    Apply(c, Selected(c, Order), img, Ctx(c, img))
  }

  /** Running the stages of `ss`: the first one, if present, then the rest. */
  lemma RunStep<I, V>(c: Config<I, V>, ss: seq<Stage>, img: I, ctx: map<string, V>)
    requires ss != []
    ensures ss[0] in c.stages ==>
              Apply(c, Selected(c, ss), img, ctx) == Apply(c, Selected(c, ss[1..]), c.stages[ss[0]](img, ctx), ctx)
    ensures ss[0] !in c.stages ==>
              Apply(c, Selected(c, ss), img, ctx) == Apply(c, Selected(c, ss[1..]), img, ctx)
  {
    if ss[0] in c.stages {
      var rest := Selected(c, ss[1..]);
      assert ([ss[0]] + rest)[1..] == rest;
    }
  }

  /** One stage of `run_pipeline`: applied when present, skipped when not. */
  function StepIf<I, V>(c: Config<I, V>, s: Stage, img: I, ctx: map<string, V>): I {
    if s in c.stages then c.stages[s](img, ctx) else img
  }

  /** The pipeline written out: the four stages in order, each run only
      when present, each given the analysis of the original image. */
  lemma RunUnfolded<I, V>(c: Config<I, V>, img: I)
    ensures var ctx := Ctx(c, img);
            Run(c, img) ==
              StepIf(c, Postprocess, StepIf(c, Background, StepIf(c, Style,
                StepIf(c, Preprocess, img, ctx), ctx), ctx), ctx)
  {
    var ctx := Ctx(c, img);
    assert Order[1..] == [Style, Background, Postprocess];
    assert Order[2..] == [Background, Postprocess];
    assert Order[3..] == [Postprocess];
    assert Order[4..] == [];
    var i1 := StepIf(c, Preprocess, img, ctx);
    var i2 := StepIf(c, Style, i1, ctx);
    var i3 := StepIf(c, Background, i2, ctx);
    RunStep(c, Order, img, ctx);
    RunStep(c, Order[1..], i1, ctx);
    RunStep(c, Order[2..], i2, ctx);
    RunStep(c, Order[3..], i3, ctx);
  }

  /** `run_pipeline`: the analysis sees the original image and its result
      becomes the context; each present stage then replaces the image, in
      the fixed order. */
  method RunPipeline<I, V>(c: Config<I, V>, img: I) returns (out: I)
    ensures out == Run(c, img)
  {
    var context: map<string, V> := map[];
    if c.analysis.Some? {
      context := context + c.analysis.value(img);
    }
    var image := img;
    if Preprocess in c.stages {
      image := c.stages[Preprocess](image, context);
    }
    if Style in c.stages {
      image := c.stages[Style](image, context);
    }
    if Background in c.stages {
      image := c.stages[Background](image, context);
    }
    if Postprocess in c.stages {
      image := c.stages[Postprocess](image, context);
    }
    RunUnfolded(c, img);
    out := image;
  }

  /** The stages run in the fixed order, and exactly the present ones run. */
  lemma RunsInOrder<I, V>(c: Config<I, V>)
    ensures Increasing(Selected(c, Order))
    ensures forall s :: s in Selected(c, Order) <==> s in c.stages
  {
    OrderIncreasing();
    SelectedIncreasing(c, Order);
    forall s: Stage | s in c.stages ensures s in Selected(c, Order) {
      assert Order[Rank(s)] == s;
      SelectedHolds(c, Order, s);
    }
  }

  lemma OrderIncreasing()
    ensures Increasing(Order)
  {
    forall i | 0 <= i < |Order| ensures Rank(Order[i]) == i {
      if i == 0 {
        assert Order[0] == Preprocess;
      } else if i == 1 {
        assert Order[1] == Style;
      } else if i == 2 {
        assert Order[2] == Background;
      } else {
        assert Order[3] == Postprocess;
      }
    }
  }

  /** With every stage present, the result is the four stages composed in
      order, each given the analysis of the original image. */
  lemma RunAllStages<I, V>(c: Config<I, V>, img: I)
    requires Preprocess in c.stages && Style in c.stages && Background in c.stages && Postprocess in c.stages
    ensures var ctx := Ctx(c, img);
            Run(c, img) ==
              c.stages[Postprocess](c.stages[Background](c.stages[Style](
                c.stages[Preprocess](img, ctx), ctx), ctx), ctx)
  {
    RunUnfolded(c, img);
  }

  /** A configuration without stages returns its input, whatever the
      analysis says. */
  lemma NoStagesIsIdentity<I, V>(c: Config<I, V>, img: I)
    requires c.stages == map[]
    ensures Run(c, img) == img
  {
    RunUnfolded(c, img);
  }

  /** A lone stage is given the input image and the analysis of that same
      image. */
  lemma SingleStage<I, V>(c: Config<I, V>, s: Stage, img: I)
    requires c.stages.Keys == {s}
    ensures Run(c, img) == c.stages[s](img, Ctx(c, img))
  {
    RunUnfolded(c, img);
  }

  /** A stage that returns the image it is given changes nothing: running
      the pipeline with it is running the pipeline without it. */
  lemma IdentityStageIsSkip<I, V>(c: Config<I, V>, s: Stage, img: I)
    requires s in c.stages
    requires forall i: I, x: map<string, V> :: c.stages[s](i, x) == i
    ensures Run(c, img) == Run(c.(stages := c.stages - {s}), img)
  {
    var d := c.(stages := c.stages - {s});
    assert Ctx(c, img) == Ctx(d, img);
    SkipIdentity(c, s, Order, img, Ctx(c, img));
  }

  lemma {:induction false} SkipIdentity<I, V>(c: Config<I, V>, s: Stage, ss: seq<Stage>, img: I, ctx: map<string, V>)
    requires s in c.stages
    requires forall i: I, x: map<string, V> :: c.stages[s](i, x) == i
    ensures var d := c.(stages := c.stages - {s});
            Apply(c, Selected(c, ss), img, ctx) == Apply(d, Selected(d, ss), img, ctx)
    decreases |ss|
  {
    var d := c.(stages := c.stages - {s});
    if ss != [] {
      RunStep(c, ss, img, ctx);
      RunStep(d, ss, img, ctx);
      if ss[0] in c.stages && ss[0] != s {
        assert d.stages[ss[0]] == c.stages[ss[0]];
        SkipIdentity(c, s, ss[1..], c.stages[ss[0]](img, ctx), ctx);
      } else {
        SkipIdentity(c, s, ss[1..], img, ctx);
      }
    }
  }

  // ---------------------------------------------------------------------
  // The component registry

  /** The registered components, by what they are. */
  datatype ComponentId =
    | Gemini25Analysis | FastAnalysis
    | RembgPreprocess | NoPreprocess
    | DetailedStyle
    | TransparentBackground | KeepWhiteBackground
    | Normalize1000 | KeepOriginalSize

  /** `COMPONENT_REGISTRY`: category, then name. */
  const Registry: map<string, map<string, ComponentId>> := map[
    "analysis" := map["gemini_2.5" := Gemini25Analysis, "fast" := FastAnalysis],
    "preprocess" := map["rembg" := RembgPreprocess, "none" := NoPreprocess],
    "style" := map["detailed" := DetailedStyle],
    "background" := map["transparent" := TransparentBackground, "white" := KeepWhiteBackground],
    "postprocess" := map["normalize_1000" := Normalize1000, "keep_size" := KeepOriginalSize]
  ]

  /** Python's KeyError, carrying the missing key. */
  datatype KeyError = KeyError(key: string)

  /** `get_component`: the registered component, or a KeyError naming the
      category when it is unknown, else the name. */
  function GetComponent(category: string, name: string): (r: Result<ComponentId, KeyError>)
    ensures r.Ok? <==> category in Registry && name in Registry[category]
    ensures r.Ok? ==> r.value == Registry[category][name]
    ensures category !in Registry ==> r == Err(KeyError(category))
    ensures category in Registry && name !in Registry[category] ==> r == Err(KeyError(name))
  {
    if category !in Registry then Err(KeyError(category))
    else if name !in Registry[category] then Err(KeyError(name))
    else Ok(Registry[category][name])
  }

  /** An entry `build_pipeline_from_names` looks up: a non-empty name other
      than "none". */
  predicate Picked(entry: (string, string)) {
    entry.1 != "" && entry.1 != "none"
  }

  predicate Resolves(entry: (string, string)) {
    entry.0 in Registry && entry.1 in Registry[entry.0]
  }

  /** The key the KeyError for an entry that does not resolve names. */
  function MissingKey(entry: (string, string)): string {
    if entry.0 !in Registry then entry.0 else entry.1
  }

  /** The entry at `i` is the first picked one that does not resolve. */
  predicate FirstFailure(config: seq<(string, string)>, i: int) {
    0 <= i < |config| && Picked(config[i]) && !Resolves(config[i]) &&
    forall j :: 0 <= j < i && Picked(config[j]) ==> Resolves(config[j])
  }

  /** A dictionary's items: no key twice. */
  predicate DistinctKeys(config: seq<(string, string)>) {
    forall i, j :: 0 <= i < j < |config| ==> config[i].0 != config[j].0
  }

  /** `build_pipeline_from_names`, the dictionary given as its items in
      order: the picked entries, each mapped to its component; the first
      picked entry that does not resolve raises its KeyError. */
  method BuildPipelineFromNames(config: seq<(string, string)>) returns (r: Result<map<string, ComponentId>, KeyError>)
    requires DistinctKeys(config)
    ensures r.Ok? <==> forall i :: 0 <= i < |config| && Picked(config[i]) ==> Resolves(config[i])
    ensures r.Ok? ==> forall k :: k in r.value <==> exists i :: 0 <= i < |config| && config[i].0 == k && Picked(config[i])
    ensures r.Ok? ==> forall i :: 0 <= i < |config| && Picked(config[i]) ==>
              config[i].0 in r.value && r.value[config[i].0] == Registry[config[i].0][config[i].1]
    ensures r.Err? ==> exists i :: FirstFailure(config, i) && r.error == KeyError(MissingKey(config[i]))
  {
    var pipeline: map<string, ComponentId> := map[];
    for i := 0 to |config|
      invariant forall j :: 0 <= j < i && Picked(config[j]) ==> Resolves(config[j])
      invariant forall k :: k in pipeline <==> exists j :: 0 <= j < i && config[j].0 == k && Picked(config[j])
      invariant forall j :: 0 <= j < i && Picked(config[j]) ==>
                  config[j].0 in pipeline && pipeline[config[j].0] == Registry[config[j].0][config[j].1]
    {
      var (category, name) := config[i];
      if name != "" && name != "none" {
        var component := GetComponent(category, name);
        if component.Err? {
          assert FirstFailure(config, i);
          return Err(component.error);
        }
        pipeline := pipeline[category := component.value];
      }
    }
    return Ok(pipeline);
  }

  /** The registry's "none" preprocess entry is never chosen by name: a
      component that is picked is never `NoPreprocess`. */
  lemma NoneNeverPicked(entry: (string, string))
    requires Picked(entry) && Resolves(entry)
    ensures Registry[entry.0][entry.1] != NoPreprocess
  {
  }
}
