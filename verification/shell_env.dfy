/** `terminalShellEnvModifyInjectable`: before a terminal starts, the
    extensions' shell-environment modifiers rewrite its environment in turn,
    when the cluster has a catalog entity. Environments are values here, so
    the copy the source makes to protect the caller's object is implicit: the
    caller's environment can never change. */
module ShellEnv {
  import opened Wrappers

  type Env = map<string, string>

  /** The catalog entity the modifiers receive in their context, by uid. */
  type Entity = string

  /** A `ShellEnvModifier`: a function of the context and the environment. */
  type Modifier = (Entity, Env) -> Env

  /** `envModifiers.reduce((env, modifier) => modifier(ctx, env), env)`. */
  function Fold(mods: seq<Modifier>, entity: Entity, env: Env): (r: Env)
    ensures mods == [] ==> r == env
    decreases |mods|
  {
    if mods == [] then env else Fold(mods[1..], entity, mods[0](entity, env))
  }

  /** `terminalShellEnvModify(clusterId, env)`; `getEntityById` is a
      parameter. */
  function TerminalShellEnvModify(mods: seq<Modifier>, getEntityById: string -> Option<Entity>, clusterId: string, env: Env): (r: Env)
    ensures getEntityById(clusterId).None? ==> r == env
    ensures getEntityById(clusterId).Some? ==> r == Fold(mods, getEntityById(clusterId).value, env)
    ensures mods == [] ==> r == env
  {
    match getEntityById(clusterId)
    case None => env
    case Some(entity) => Fold(mods, entity, env)
  }

  /** The fold runs the modifiers left to right: folding a concatenation is
      folding the second part over the result of the first. */
  lemma {:induction false} FoldAppend(a: seq<Modifier>, b: seq<Modifier>, entity: Entity, env: Env)
    ensures Fold(a + b, entity, env) == Fold(b, entity, Fold(a, entity, env))
    decreases |a|
  {
    if a != [] {
      assert (a + b)[1..] == a[1..] + b;
      FoldAppend(a[1..], b, entity, a[0](entity, env));
    } else {
      assert a + b == b;
    }
  }

  /** The last modifier has the last word: it sees what the others made. */
  lemma LastModifierWins(mods: seq<Modifier>, last: Modifier, entity: Entity, env: Env)
    ensures Fold(mods + [last], entity, env) == last(entity, Fold(mods, entity, env))
  {
    FoldAppend(mods, [last], entity, env);
  }
}
