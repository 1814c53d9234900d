/** The target-type registry: layered policies, their defaults, and the
    questions put to the host. */
module Registry {
  import opened Model

  /** A gate callback answers a bare value, an envelope, or raises. */
  datatype GateAnswer = BareGate(truthy: bool) | GateEnvelope(allowed: bool) | GateRaises

  datatype Verdict = Yes | No | Raised

  function ReadBool(a: GateAnswer): Verdict {
    match a
    case BareGate(b) => if b then Yes else No
    case GateEnvelope(b) => if b then Yes else No
    case GateRaises => Raised
  }

  /** What an owner resolver can answer. Only a comm Function has the envelope form. */
  datatype OwnerAnswer = OwnerText(key: string) | OwnerNothing | OwnerRaises
  datatype CommOwnerAnswer = Plain(answer: OwnerAnswer) | Envelope(key: Option<string>)

  type ReviewGate = (UserId, Target) -> GateAnswer
  type ModerateGate = (UserId, Target) -> GateAnswer
  type RespondGate = (UserId, Target, string) -> GateAnswer

  datatype OwnerResolver =
    | Callable(ask: string -> OwnerAnswer)
    | CommFunction(call: (string, string) -> CommOwnerAnswer)

  /** A policy as the host wrote it: any key may be missing. */
  datatype RawPolicy = RawPolicy(
    canReview: Option<ReviewGate>,
    canModerate: Option<ModerateGate>,
    canRespond: Option<RespondGate>,
    ownerKeyFor: Option<OwnerResolver>,
    moderation: Option<string>,
    onePerAuthor: Option<bool>,
    allowResponse: Option<bool>,
    allowSelfReview: Option<bool>)

  datatype Policy = Policy(
    canReview: Option<ReviewGate>,
    canModerate: Option<ModerateGate>,
    canRespond: Option<RespondGate>,
    ownerKeyFor: Option<OwnerResolver>,
    moderation: string,
    onePerAuthor: bool,
    allowResponse: bool,
    allowSelfReview: bool)

  type Layer = map<string, Option<RawPolicy>>

  datatype Settings = Settings(
    targetTypes: Layer,
    moderationDefault: string,
    responses: bool,
    ratingMin: int,
    ratingMax: int,
    moderationTargetType: string)

  /** What a service call sees: the resolved policies and the rating bounds. */
  datatype Env = Env(types: map<string, Policy>, ratingMin: int, ratingMax: int)

  function OrElse<T>(o: Option<T>, default: T): T {
    match o
    case Some(v) => v
    case None => default
  }

  function FillDefaults(s: Settings, raw: RawPolicy): Policy {
    Policy(
      raw.canReview, raw.canModerate, raw.canRespond, raw.ownerKeyFor,
      OrElse(raw.moderation, s.moderationDefault),
      OrElse(raw.onePerAuthor, false),
      OrElse(raw.allowResponse, s.responses),
      OrElse(raw.allowSelfReview, false))
  }

  /** The entry the layers leave for a name: the upper layer decides whenever
      it mentions the name, and None removes. */
  function Effective(lower: Layer, upper: Layer, name: string): Option<RawPolicy> {
    if name in upper then upper[name]
    else if name in lower then lower[name]
    else None
  }

  ghost predicate IsEffective(lower: Layer, upper: Layer, types: map<string, RawPolicy>) {
    forall name :: (name in types <==> Effective(lower, upper, name).Some?)
                   && (name in types ==> types[name] == Effective(lower, upper, name).value)
  }

  function EnvOf(s: Settings, types: map<string, RawPolicy>): Env {
    Env(map name | name in types :: FillDefaults(s, types[name]), s.ratingMin, s.ratingMax)
  }

  /** The registry the host mutates at runtime. The built-in layer is empty. */
  class TargetTypes {
    var runtime: Layer

    constructor ()
      ensures runtime == map[]
    {
      runtime := map[];
    }

    method Register(name: string, policy: Option<RawPolicy>)
      modifies this
      ensures runtime == old(runtime)[name := policy]
    {
      runtime := runtime[name := policy];
    }

    method Reset()
      modifies this
      ensures runtime == map[]
    {
      runtime := map[];
    }

    /** Later sources overwrite earlier ones, then the removed names go. */
    method GetTargetTypes(s: Settings) returns (types: map<string, RawPolicy>)
      ensures IsEffective(s.targetTypes, runtime, types)
      ensures forall name :: name in types <==>
                (name in runtime && runtime[name].Some?)
                || (name !in runtime && name in s.targetTypes && s.targetTypes[name].Some?)
      ensures forall name :: name in types ==>
                Some(types[name]) == if name in runtime then runtime[name] else s.targetTypes[name]
    {
      var merged: Layer := map[];
      merged := MergeInto(merged, s.targetTypes);
      merged := MergeInto(merged, runtime);
      types := map name | name in merged && merged[name].Some? :: merged[name].value;
    }

    /** One source of the merge, name by name. */
    static method MergeInto(base: Layer, source: Layer) returns (merged: Layer)
      ensures forall name :: name in merged <==> name in base || name in source
      ensures forall name :: name in source ==> merged[name] == source[name]
      ensures forall name :: name in base && name !in source ==> merged[name] == base[name]
    {
      merged := base;
      var names := source.Keys;
      while names != {}
        invariant names <= source.Keys
        invariant forall name :: name in merged <==> name in base || (name in source && name !in names)
        invariant forall name :: name in source && name !in names ==> merged[name] == source[name]
        invariant forall name :: name in base && name !in source ==> merged[name] == base[name]
        decreases |names|
      {
        var name :| name in names;
        merged := merged[name := source[name]];
        names := names - {name};
      }
    }
  }

  /** A registered policy, or nothing for an unknown type. */
  function Lookup(env: Env, ttype: string): Option<Policy> {
    if ttype in env.types then Some(env.types[ttype]) else None
  }

  /** Registering a name touches no other name, and None unregisters it even
      when the settings layer provides it. */
  lemma RegisterIsLocal(s: Settings, runtime: Layer, name: string, policy: Option<RawPolicy>,
                        before: map<string, RawPolicy>, after: map<string, RawPolicy>)
    requires IsEffective(s.targetTypes, runtime, before)
    requires IsEffective(s.targetTypes, runtime[name := policy], after)
    ensures name in after <==> policy.Some?
    ensures policy.Some? ==> after[name] == policy.value
    ensures forall other :: other != name ==>
              (other in after <==> other in before) && (other in after ==> after[other] == before[other])
    ensures Lookup(EnvOf(s, after), name).Some? <==> policy.Some?
    ensures forall other :: other != name ==>
              Lookup(EnvOf(s, after), other) == Lookup(EnvOf(s, before), other)
  {
    assert Effective(s.targetTypes, runtime[name := policy], name) == policy;
    forall other | other != name
      ensures Lookup(EnvOf(s, after), other) == Lookup(EnvOf(s, before), other)
      ensures (other in after <==> other in before) && (other in after ==> after[other] == before[other])
    {
      assert Effective(s.targetTypes, runtime[name := policy], other)
          == Effective(s.targetTypes, runtime, other);
    }
  }

  /** No callback means anyone may review. */
  function CheckCanReview(p: Policy, author: UserId, t: Target): Verdict {
    match p.canReview
    case None => Yes
    case Some(gate) => ReadBool(gate(author, t))
  }

  /** No callback means nobody may moderate. */
  function CheckCanModerate(p: Policy, actor: UserId, t: Target): Verdict {
    match p.canModerate
    case None => No
    case Some(gate) => ReadBool(gate(actor, t))
  }

  predicate IsOwner(ownerKey: string, actor: UserId) {
    ownerKey != "" && ownerKey == actor
  }

  /** No callback means the stamped owner, and nobody else. */
  function CheckCanRespond(p: Policy, actor: UserId, t: Target, ownerKey: string): Verdict {
    match p.canRespond
    case None => if IsOwner(ownerKey, actor) then Yes else No
    case Some(gate) => ReadBool(gate(actor, t, ownerKey))
  }

  /** The resolver's answer as a key; "" when there is no resolver or no owner. */
  function ResolveOwnerKey(p: Policy, t: Target): Result<string> {
    match p.ownerKeyFor
    case None => Ok("")
    case Some(Callable(ask)) => AsOwnerKey(ask(t.tkey))
    case Some(CommFunction(call)) =>
      match call(t.ttype, t.tkey)
      case Plain(a) => AsOwnerKey(a)
      case Envelope(k) => Ok(OrElse(k, ""))
  }

  /** A gate lets the caller through: a true value, bare or in the envelope. */
  ghost predicate Admits(a: GateAnswer) {
    a == BareGate(true) || a == GateEnvelope(true)
  }

  /** The resolver says that `owner` owns `t`, "" being nobody. A resolver that
      raises says nothing of anyone. */
  ghost predicate NamesOwner(resolver: Option<OwnerResolver>, t: Target, owner: string) {
    match resolver
    case None => owner == ""
    case Some(Callable(ask)) =>
      ask(t.tkey) == OwnerText(owner) || (ask(t.tkey) == OwnerNothing && owner == "")
    case Some(CommFunction(call)) =>
      var a := call(t.ttype, t.tkey);
      || a == Plain(OwnerText(owner)) || a == Envelope(Some(owner))
      || (owner == "" && (a == Plain(OwnerNothing) || a == Envelope(None)))
  }

  lemma ResolvedIsNamed(p: Policy, t: Target)
    ensures forall owner :: ResolveOwnerKey(p, t) == Ok(owner) <==> NamesOwner(p.ownerKeyFor, t, owner)
    ensures ResolveOwnerKey(p, t).Err? <==> forall owner :: !NamesOwner(p.ownerKeyFor, t, owner)
    ensures ResolveOwnerKey(p, t).Err? ==> ResolveOwnerKey(p, t) == Err(HostFailure)
  {
    if ResolveOwnerKey(p, t).Ok? { ResolvedNames(p, t); }
  }

  lemma ResolvedNames(p: Policy, t: Target)
    requires ResolveOwnerKey(p, t).Ok?
    ensures NamesOwner(p.ownerKeyFor, t, ResolveOwnerKey(p, t).value)
  {
    match p.ownerKeyFor
    case None =>
    case Some(Callable(ask)) =>
    case Some(CommFunction(call)) =>
      match call(t.ttype, t.tkey)
      case Plain(_) =>
      case Envelope(None) =>
      case Envelope(Some(k)) =>
  }

  function AsOwnerKey(a: OwnerAnswer): Result<string> {
    match a
    case OwnerText(k) => Ok(k)
    case OwnerNothing => Ok("")
    case OwnerRaises => Err(HostFailure)
  }

  const EMPTY_POLICY := RawPolicy(None, None, None, None, None, None, None, None)

  /** A type registered with nothing said: anyone may review, nobody may moderate,
      new reviews carry no owner, only the owner stamped on a row may reply to
      it, several reviews per author are fine, and the two configurable axes take
      their settings. */
  lemma EmptyPolicyMeaning(s: Settings, t: Target, u: UserId, ownerKey: string)
    ensures var p := FillDefaults(s, EMPTY_POLICY);
            && CheckCanReview(p, u, t) == Yes
            && CheckCanModerate(p, u, t) == No
            && ResolveOwnerKey(p, t) == Ok("")
            && (CheckCanRespond(p, u, t, ownerKey) == Yes <==> ownerKey != "" && u == ownerKey)
            && !p.onePerAuthor && !p.allowSelfReview
            && p.moderation == s.moderationDefault && p.allowResponse == s.responses
  {
  }
}
