/** The configuration state machine of the phased experiment: defaults, the variants of every phase,
    the winner of a phase applied in place, and the candidate list of the joint search. */
module Configurations {
  import opened Optional

  datatype Stage = JdRecall | ResumeEvidence | KnowledgeRecall

  datatype Phase = Chunking | Embedding | Tokenizer | Retrieval | Rewrite | Rerank

  datatype Model = NoModel | EmbeddingV3 | EmbeddingV4

  datatype Mode = Lexical | Dense | Hybrid | ResumeProduction

  datatype TokenizerKind = CjkBigram | UnigramBigram | Jieba | Domain | ResumePhrase | KbWeighted

  datatype RewriteKind = NoRewrite | Deterministic | DeepseekRewrite

  datatype RerankKind = NoRerank | Feature | Qwen3 | DeepseekRerank

  datatype EmbeddingCfg = EmbeddingCfg(model: Model, dimension: nat)

  datatype RetrievalCfg = RetrievalCfg(mode: Mode, semanticWeight: real, rrfK: nat, scoreThreshold: real,
                                       candidateLimit: nat, denseMultiplier: nat)

  /** A selection. Chunk settings are named by a number. */
  datatype Config = Config(chunk: nat, embedding: EmbeddingCfg, tokenizer: TokenizerKind,
                           retrieval: RetrievalCfg, rewrite: RewriteKind, rerank: RerankKind)

  /** A variant of one phase; optional keys are left unchanged when absent. */
  datatype Variant =
    | ChunkVariant(chunk: nat)
    | EmbeddingVariant(embedding: EmbeddingCfg, retrievalMode: Option<Mode>)
    | TokenizerVariant(tokenizer: TokenizerKind)
    | RetrievalVariant(mode: Mode, semanticWeight: real, rrfK: nat, threshold: Option<real>, limit: Option<nat>)
    | RewriteVariant(rewrite: RewriteKind)
    | RerankVariant(rerank: RerankKind)

  // ---------------------------------------------------------------- tables

  function Defaults(stage: Stage): Config {
    match stage
    case JdRecall => Config(2, EmbeddingCfg(EmbeddingV3, 1024), CjkBigram,
                            RetrievalCfg(Hybrid, 0.7, 60, 0.35, 50, 3), NoRewrite, NoRerank)
    case ResumeEvidence => Config(0, EmbeddingCfg(NoModel, 0), ResumePhrase,
                                  RetrievalCfg(ResumeProduction, 0.0, 60, 0.35, 5, 1), NoRewrite, Feature)
    case KnowledgeRecall => Config(0, EmbeddingCfg(EmbeddingV3, 1024), KbWeighted,
                                   RetrievalCfg(Hybrid, 0.5, 60, 0.30, 20, 1), NoRewrite, Feature)
  }

  predicate IsModelSize(e: EmbeddingCfg) {
    || (e.model == EmbeddingV3 &&
        (e.dimension == 256 || e.dimension == 512 || e.dimension == 768 || e.dimension == 1024))
    || (e.model == EmbeddingV4 && (e.dimension == 512 || e.dimension == 1024))
  }

  /** The retrieval variants of the JD and knowledge stages. */
  predicate IsGlobalRetrieval(v: Variant, threshold: real, limit: nat)
    requires v.RetrievalVariant?
  {
    || v == RetrievalVariant(Lexical, 0.0, 60, None, None)
    || v == RetrievalVariant(Dense, 1.0, 60, None, None)
    || (&& v.mode == Hybrid && v.threshold == None && v.limit == None
        && (v.rrfK == 10 || v.rrfK == 30 || v.rrfK == 60 || v.rrfK == 100)
        && (v.semanticWeight == 0.3 || v.semanticWeight == 0.5 || v.semanticWeight == 0.7))
    || v == RetrievalVariant(Hybrid, 0.5, 60, Some(0.20), None)
    || v == RetrievalVariant(Hybrid, 0.5, 60, Some(0.45), None)
    || v == RetrievalVariant(Hybrid, 0.5, 60, Some(threshold), Some(if limit / 2 < 5 then 5 else limit / 2))
    || v == RetrievalVariant(Hybrid, 0.5, 60, Some(threshold), Some(limit * 2))
  }

  predicate IsResumeRetrieval(v: Variant)
    requires v.RetrievalVariant?
  {
    || v == RetrievalVariant(ResumeProduction, 0.0, 60, None, None)
    || v == RetrievalVariant(Lexical, 0.0, 60, None, None)
    || v == RetrievalVariant(Dense, 1.0, 60, None, None)
    || (&& v.mode == Hybrid && v.rrfK == 60 && v.threshold == None && v.limit == None
        && (v.semanticWeight == 0.3 || v.semanticWeight == 0.5 || v.semanticWeight == 0.7))
    || v == RetrievalVariant(Hybrid, 0.5, 60, Some(0.20), None)
    || v == RetrievalVariant(Hybrid, 0.5, 60, Some(0.45), None)
    || v == RetrievalVariant(Hybrid, 0.5, 60, None, Some(10))
  }

  function TokenizersOf(stage: Stage): set<TokenizerKind> {
    match stage
    case JdRecall => {CjkBigram, UnigramBigram, Jieba, Domain}
    case ResumeEvidence => {ResumePhrase, CjkBigram, Jieba, Domain}
    case KnowledgeRecall => {KbWeighted, CjkBigram, Jieba, Domain}
  }

  /** `variant in variants_for_phase(stage, phase)` */
  predicate IsVariant(stage: Stage, phase: Phase, v: Variant) {
    match phase
    case Chunking => v.ChunkVariant? && v.chunk < if stage == JdRecall then 11 else 10
    case Embedding =>
      && v.EmbeddingVariant?
      && if stage == ResumeEvidence then
           || v == EmbeddingVariant(EmbeddingCfg(NoModel, 0), Some(ResumeProduction))
           || (IsModelSize(v.embedding) && v.retrievalMode == Some(Dense))
         else IsModelSize(v.embedding) && v.retrievalMode == None
    case Tokenizer => v.TokenizerVariant? && v.tokenizer in TokenizersOf(stage)
    case Retrieval =>
      && v.RetrievalVariant?
      && (match stage
          case JdRecall => IsGlobalRetrieval(v, 0.35, 50)
          case KnowledgeRecall => IsGlobalRetrieval(v, 0.30, 20)
          case ResumeEvidence => IsResumeRetrieval(v))
    case Rewrite => v.RewriteVariant?
    case Rerank => v.RerankVariant? && (stage == JdRecall ==> v.rerank != Feature)
  }

  // ---------------------------------------------------------------- applying a winner

  predicate NeedsDense(c: Config) { c.retrieval.mode == Dense || c.retrieval.mode == Hybrid }

  function MergeRetrieval(r: RetrievalCfg, v: Variant): RetrievalCfg
    requires v.RetrievalVariant?
  {
    RetrievalCfg(v.mode, v.semanticWeight, v.rrfK,
                 if v.threshold.Some? then v.threshold.value else r.scoreThreshold,
                 if v.limit.Some? then v.limit.value else r.candidateLimit, r.denseMultiplier)
  }

  /** The selection after the winner of a phase has been applied. */
  function Apply(stage: Stage, c: Config, v: Variant): Config {
    match v
    case ChunkVariant(chunk) => c.(chunk := chunk)
    case EmbeddingVariant(embedding, mode) =>
      c.(embedding := embedding, retrieval := if mode.Some? then c.retrieval.(mode := mode.value) else c.retrieval)
    case TokenizerVariant(tokenizer) => c.(tokenizer := tokenizer)
    case RetrievalVariant(mode, _, _, _, _) =>
      var d := c.(retrieval := MergeRetrieval(c.retrieval, v));
      if stage == ResumeEvidence && (mode == Dense || mode == Hybrid) && c.embedding.model == NoModel
      then d.(embedding := EmbeddingCfg(EmbeddingV3, 1024)) else d
    case RewriteVariant(rewrite) => c.(rewrite := rewrite)
    case RerankVariant(rerank) => c.(rerank := rerank)
  }

  /** The selection dictionary, which `apply_winner` changes in place. */
  class Selection {
    var chunk: nat
    var embedding: EmbeddingCfg
    var tokenizer: TokenizerKind
    var retrieval: RetrievalCfg
    var rewrite: RewriteKind
    var rerank: RerankKind

    /** The dictionary's contents. */
    function Contents(): Config
      reads this
    {
      Config(chunk, embedding, tokenizer, retrieval, rewrite, rerank)
    }

    /** A deep copy of a configuration. */
    constructor Of(c: Config)
      ensures Contents() == c
    {
      chunk, embedding, tokenizer := c.chunk, c.embedding, c.tokenizer;
      retrieval, rewrite, rerank := c.retrieval, c.rewrite, c.rerank;
    }

    method ApplyWinner(stage: Stage, phase: Phase, v: Variant)
      requires IsVariant(stage, phase, v)
      modifies this
      ensures Contents() == Apply(stage, old(Contents()), v)
    {
      match phase
      case Chunking => chunk := v.chunk;
      case Embedding =>
        embedding := v.embedding;
        if v.retrievalMode.Some? {
          retrieval := retrieval.(mode := v.retrievalMode.value);
        }
      case Tokenizer => tokenizer := v.tokenizer;
      case Retrieval =>
        retrieval := MergeRetrieval(retrieval, v);
        if stage == ResumeEvidence && (v.mode == Dense || v.mode == Hybrid) && embedding.model == NoModel {
          embedding := EmbeddingCfg(EmbeddingV3, 1024);
        }
      case Rewrite => rewrite := v.rewrite;
      case Rerank => rerank := v.rerank;
    }

    /** `config_for_variant`: a trial configuration; the selection itself stays as it is. */
    method ConfigForVariant(stage: Stage, phase: Phase, v: Variant) returns (trial: Selection)
      requires IsVariant(stage, phase, v)
      ensures fresh(trial) && trial.Contents() == TrialConfig(stage, phase, Contents(), v)
    {
      trial := new Selection.Of(Contents());
      trial.ApplyWinner(stage, phase, v);
      if phase != Rerank {
        trial.rerank := NoRerank;
      }
      if phase != Rewrite && phase != Rerank {
        trial.rewrite := NoRewrite;
      }
    }
  }

  function TrialConfig(stage: Stage, phase: Phase, c: Config, v: Variant): Config {
    var d := Apply(stage, c, v);
    var e := if phase != Rerank then d.(rerank := NoRerank) else d;
    if phase != Rewrite && phase != Rerank then e.(rewrite := NoRewrite) else e
  }

  /** What a variant decides, setting by setting: a phase sets its own, a retrieval variant keeps the threshold and the
      limit that it does not name, and an embedding comes with the retrieval only where the resume stage turns to dense
      retrieval without a model. */
  lemma SettingsAfter(stage: Stage, c: Config, v: Variant)
    ensures var d := Apply(stage, c, v);
      && d.chunk == (if v.ChunkVariant? then v.chunk else c.chunk)
      && d.tokenizer == (if v.TokenizerVariant? then v.tokenizer else c.tokenizer)
      && d.rewrite == (if v.RewriteVariant? then v.rewrite else c.rewrite)
      && d.rerank == (if v.RerankVariant? then v.rerank else c.rerank)
    ensures Apply(stage, c, v).embedding ==
      if v.EmbeddingVariant? then v.embedding
      else if v.RetrievalVariant? && v.mode in {Dense, Hybrid} && stage == ResumeEvidence
        && c.embedding.model == NoModel
      then EmbeddingCfg(EmbeddingV3, 1024)
      else c.embedding
    ensures var r, s := c.retrieval, Apply(stage, c, v).retrieval;
      && s.denseMultiplier == r.denseMultiplier
      && (v.RetrievalVariant? ==> s.mode == v.mode && s.semanticWeight == v.semanticWeight && s.rrfK == v.rrfK)
      && (!v.RetrievalVariant? ==> s.semanticWeight == r.semanticWeight && s.rrfK == r.rrfK)
      && (!v.RetrievalVariant? ==>
            s.mode == if v.EmbeddingVariant? && v.retrievalMode.Some? then v.retrievalMode.value else r.mode)
      && s.scoreThreshold ==
         (if v.RetrievalVariant? && v.threshold.Some? then v.threshold.value else r.scoreThreshold)
      && s.candidateLimit == if v.RetrievalVariant? && v.limit.Some? then v.limit.value else r.candidateLimit
  {}

  /** A trial of a phase up to retrieval runs without rewriting and reranking, and one of rewriting without
      reranking; everything else is as the variant decides. */
  lemma TrialIs(stage: Stage, phase: Phase, c: Config, v: Variant)
    ensures var trial, d := TrialConfig(stage, phase, c, v), Apply(stage, c, v);
      && trial.rerank == (if phase == Rerank then d.rerank else NoRerank)
      && trial.rewrite == (if phase in {Rewrite, Rerank} then d.rewrite else NoRewrite)
      && trial.(rerank := d.rerank, rewrite := d.rewrite) == d
  {}

  // ---------------------------------------------------------------- the invariant

  /** The condition under which `evaluate_variant` does not refuse a configuration. */
  predicate Evaluable(c: Config) {
    NeedsDense(c) ==> c.embedding.model != NoModel && c.embedding.dimension > 0
  }

  /** It refuses one exactly when dense or hybrid retrieval comes without a model or without a dimension. */
  lemma RefusedExactlyWhen(c: Config)
    ensures !Evaluable(c) <==>
      c.retrieval.mode in {Dense, Hybrid} && (c.embedding.model == NoModel || c.embedding.dimension == 0)
  {}

  /** What every selection of a stage satisfies. */
  predicate Sound(stage: Stage, c: Config) {
    && (c.embedding.model != NoModel ==> c.embedding.dimension > 0)
    && (c.embedding.model == NoModel ==> stage == ResumeEvidence && !NeedsDense(c))
  }

  lemma DefaultsAreSound(stage: Stage)
    ensures Sound(stage, Defaults(stage))
  {}

  lemma ApplyKeepsSound(stage: Stage, phase: Phase, c: Config, v: Variant)
    requires Sound(stage, c) && IsVariant(stage, phase, v)
    ensures Sound(stage, Apply(stage, c, v)) && Sound(stage, TrialConfig(stage, phase, c, v))
  {}

  /** One variant per phase, in the order of the phases. */
  ghost predicate IsTuple(stage: Stage, values: seq<Variant>) {
    && |values| == 6
    && IsVariant(stage, Chunking, values[0]) && IsVariant(stage, Embedding, values[1])
    && IsVariant(stage, Tokenizer, values[2]) && IsVariant(stage, Retrieval, values[3])
    && IsVariant(stage, Rewrite, values[4]) && IsVariant(stage, Rerank, values[5])
  }

  function ApplyAll(stage: Stage, c: Config, values: seq<Variant>): Config {
    if values == [] then c else Apply(stage, ApplyAll(stage, c, values[..|values| - 1]), values[|values| - 1])
  }

  ghost predicate AreVariants(stage: Stage, values: seq<Variant>) {
    forall v :: v in values ==> exists phase :: IsVariant(stage, phase, v)
  }

  lemma TupleHoldsVariants(stage: Stage, values: seq<Variant>)
    requires IsTuple(stage, values)
    ensures AreVariants(stage, values)
  {
    forall v | v in values ensures exists phase :: IsVariant(stage, phase, v) {
      var i :| 0 <= i < 6 && values[i] == v;
      assert i == 0 || i == 1 || i == 2 || i == 3 || i == 4 || i == 5;
    }
  }

  lemma {:induction false} ApplyAllKeepsSound(stage: Stage, c: Config, values: seq<Variant>)
    requires Sound(stage, c) && AreVariants(stage, values)
    ensures Sound(stage, ApplyAll(stage, c, values))
  {
    if values != [] {
      var init, v := values[..|values| - 1], values[|values| - 1];
      assert v in values && forall u :: u in init ==> u in values;
      ApplyAllKeepsSound(stage, c, init);
      var phase :| IsVariant(stage, phase, v);
      ApplyKeepsSound(stage, phase, ApplyAll(stage, c, init), v);
    }
  }

  // ---------------------------------------------------------------- whole runs

  /** What can happen to a selection: the winner of a phase is applied, or the joint search replaces
      it by the defaults, by itself, or by a tuple applied to the defaults. */
  datatype Step = Winner(phase: Phase, variant: Variant) | JointDefault | JointSame | JointTuple(values: seq<Variant>)

  ghost predicate IsStep(stage: Stage, s: Step) {
    match s
    case Winner(phase, v) => IsVariant(stage, phase, v)
    case JointTuple(values) => IsTuple(stage, values)
    case _ => true
  }

  function Take(stage: Stage, c: Config, s: Step): Config {
    match s
    case Winner(_, v) => Apply(stage, c, v)
    case JointDefault => Defaults(stage)
    case JointSame => c
    case JointTuple(values) => ApplyAll(stage, Defaults(stage), values)
  }

  /** The selection after a run. */
  function Run(stage: Stage, steps: seq<Step>): Config {
    if steps == [] then Defaults(stage) else Take(stage, Run(stage, steps[..|steps| - 1]), steps[|steps| - 1])
  }

  /** After any sequence of phase winners and joint searches the selection is sound, and so is every
      trial configuration made from it; none is refused for lack of an embedding model. */
  lemma {:induction false} EveryRunIsSound(stage: Stage, steps: seq<Step>)
    requires forall s :: s in steps ==> IsStep(stage, s)
    ensures Sound(stage, Run(stage, steps)) && Evaluable(Run(stage, steps))
    ensures forall phase, v :: IsVariant(stage, phase, v) ==> Evaluable(TrialConfig(stage, phase, Run(stage, steps), v))
  {
    if steps == [] {
      DefaultsAreSound(stage);
    } else {
      var init, s := steps[..|steps| - 1], steps[|steps| - 1];
      assert s in steps && forall t :: t in init ==> t in steps;
      EveryRunIsSound(stage, init);
      match s {
        case Winner(phase, v) => ApplyKeepsSound(stage, phase, Run(stage, init), v);
        case JointTuple(values) =>
          DefaultsAreSound(stage);
          TupleHoldsVariants(stage, values);
          ApplyAllKeepsSound(stage, Defaults(stage), values);
        case _ => DefaultsAreSound(stage);
      }
    }
    forall phase, v | IsVariant(stage, phase, v) ensures Evaluable(TrialConfig(stage, phase, Run(stage, steps), v)) {
      ApplyKeepsSound(stage, phase, Run(stage, steps), v);
    }
  }

  // ---------------------------------------------------------------- the joint search

  /** The test by which `add` rejects a configuration. */
  predicate Rejected(stage: Stage, c: Config) {
    stage == ResumeEvidence && c.embedding.model == NoModel && NeedsDense(c)
  }

  /** Configurations in order, each once. */
  function Unique(cs: seq<Config>): seq<Config> {
    if cs == [] then []
    else
      var init := Unique(cs[..|cs| - 1]);
      if cs[|cs| - 1] in init then init else init + [cs[|cs| - 1]]
  }

  function TupleConfigs(stage: Stage, tuples: seq<seq<Variant>>): seq<Config> {
    if tuples == [] then []
    else TupleConfigs(stage, tuples[..|tuples| - 1]) + [ApplyAll(stage, Defaults(stage), tuples[|tuples| - 1])]
  }

  function Prefix(cs: seq<Config>, n: int): seq<Config>
    requires 0 <= n
  {
    if |cs| <= n then cs else cs[..n]
  }

  /** `build_joint_configs` for a shuffled product of the pools. The rejection test never fires, so
      the candidates are the defaults, the current selection and the tuples, without repetition, up to
      the number of trials but at least two. The defaults always come first. */
  method BuildJointConfigs(stage: Stage, selection: Config, tuples: seq<seq<Variant>>, trials: int)
    returns (candidates: seq<Config>, ghost used: nat)
    requires Sound(stage, selection) && forall t :: t in tuples ==> IsTuple(stage, t)
    ensures used <= |tuples|
    ensures var all := Unique([Defaults(stage), selection] + TupleConfigs(stage, tuples[..used]));
      var cap := if trials < 2 then 2 else trials;
      candidates == Prefix(all, cap) && (|all| < cap ==> used == |tuples|)
    ensures |candidates| <= 2 || |candidates| <= trials
    ensures used < |tuples| ==> |candidates| >= 2 && |candidates| >= trials
    ensures candidates != [] && candidates[0] == Defaults(stage)
    ensures forall c :: c in candidates ==> Sound(stage, c) && Evaluable(c)
  {
    DefaultsAreSound(stage);
    var cap := if trials < 2 then 2 else trials;
    candidates := AddCandidate(stage, [], Defaults(stage));
    candidates := AddCandidate(stage, candidates, selection);
    FirstTwo(stage, Defaults(stage), selection, tuples);
    candidates, used := AddTuples(stage, [Defaults(stage), selection], candidates, tuples, cap);
    assert AllSound(stage, [Defaults(stage), selection]);
    CandidatesAreSound(stage, [Defaults(stage), selection], tuples[..used]);
    ghost var all := candidates;
    candidates := Prefix(candidates, cap);
    forall c | c in candidates ensures Sound(stage, c) && Evaluable(c) {
      assert c in all;
      SoundIsEvaluable(stage, c);
    }
  }

  lemma SoundIsEvaluable(stage: Stage, c: Config)
    requires Sound(stage, c)
    ensures Evaluable(c) && !Rejected(stage, c)
  {}

  /** The loop over the shuffled tuples: it ends once there are `cap` candidates. */
  method AddTuples(stage: Stage, ghost first: seq<Config>, start: seq<Config>, tuples: seq<seq<Variant>>, cap: int)
    returns (candidates: seq<Config>, ghost used: nat)
    requires start == Unique(first + TupleConfigs(stage, tuples[..0])) && 2 <= cap
    requires forall t :: t in tuples ==> IsTuple(stage, t)
    ensures used <= |tuples| && candidates == Unique(first + TupleConfigs(stage, tuples[..used]))
    ensures |candidates| < cap ==> used == |tuples|
  {
    candidates, used := start, 0;
    for i := 0 to |tuples|
      invariant used == i && candidates == Unique(first + TupleConfigs(stage, tuples[..i]))
    {
      DefaultsAreSound(stage);
      TupleHoldsVariants(stage, tuples[i]);
      ApplyAllKeepsSound(stage, Defaults(stage), tuples[i]);
      OneMore(stage, first, tuples, i);
      candidates := AddCandidate(stage, candidates, ApplyAll(stage, Defaults(stage), tuples[i]));
      used := i + 1;
      if |candidates| >= cap {
        break;
      }
    }
  }

  ghost predicate AllSound(stage: Stage, cs: seq<Config>) {
    forall c :: c in cs ==> Sound(stage, c)
  }

  lemma {:induction false} TupleConfigsAreSound(stage: Stage, tuples: seq<seq<Variant>>)
    requires forall t :: t in tuples ==> IsTuple(stage, t)
    ensures AllSound(stage, TupleConfigs(stage, tuples))
  {
    if tuples != [] {
      var init, t := tuples[..|tuples| - 1], tuples[|tuples| - 1];
      assert t in tuples && forall u :: u in init ==> u in tuples;
      TupleConfigsAreSound(stage, init);
      DefaultsAreSound(stage);
      TupleHoldsVariants(stage, t);
      ApplyAllKeepsSound(stage, Defaults(stage), t);
    }
  }

  lemma {:induction false} UniqueFacts(cs: seq<Config>)
    ensures forall c :: c in Unique(cs) <==> c in cs
    ensures cs != [] ==> Unique(cs) != [] && Unique(cs)[0] == cs[0]
  {
    if cs != [] {
      UniqueFacts(cs[..|cs| - 1]);
      assert cs == cs[..|cs| - 1] + [cs[|cs| - 1]];
    }
  }

  lemma CandidatesAreSound(stage: Stage, first: seq<Config>, tuples: seq<seq<Variant>>)
    requires AllSound(stage, first) && first != [] && forall t :: t in tuples ==> IsTuple(stage, t)
    ensures var all := Unique(first + TupleConfigs(stage, tuples));
      AllSound(stage, all) && all != [] && all[0] == first[0]
  {
    TupleConfigsAreSound(stage, tuples);
    UniqueFacts(first + TupleConfigs(stage, tuples));
  }

  lemma OneMore(stage: Stage, first: seq<Config>, tuples: seq<seq<Variant>>, i: nat)
    requires i < |tuples|
    ensures var before := first + TupleConfigs(stage, tuples[..i]);
      var config := ApplyAll(stage, Defaults(stage), tuples[i]);
      Unique(first + TupleConfigs(stage, tuples[..i + 1])) ==
      if config in Unique(before) then Unique(before) else Unique(before) + [config]
  {
    var config := ApplyAll(stage, Defaults(stage), tuples[i]);
    var before := first + TupleConfigs(stage, tuples[..i]);
    assert tuples[..i + 1][..i] == tuples[..i];
    assert first + TupleConfigs(stage, tuples[..i + 1]) == before + [config];
    assert (before + [config])[..|before|] == before;
  }

  lemma FirstTwo(stage: Stage, c: Config, d: Config, tuples: seq<seq<Variant>>)
    ensures Unique([c, d] + TupleConfigs(stage, tuples[..0])) == if d in [c] then [c] else [c] + [d]
  {
    assert tuples[..0] == [] && [c, d] + [] == [c, d];
    assert [c, d][..1] == [c] && [c][..0] == [];
    assert Unique([]) == [] && Unique([c]) == [] + [c];
  }

  method AddCandidate(stage: Stage, candidates: seq<Config>, c: Config) returns (more: seq<Config>)
    requires Sound(stage, c)
    ensures more == if c in candidates then candidates else candidates + [c]
  {
    if Rejected(stage, c) {
      return candidates;
    }
    more := if c in candidates then candidates else candidates + [c];
  }
}
