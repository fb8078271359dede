/**
 The two packet handlers the client registers for live sync: packet 0x3F,
 whose sub-command byte at offset 13 selects the hash query (0xFF), the
 statics update (0x00), the map definition (0x01) or the login confirmation
 (0x02), and packet 0x40, the terrain update.
 */
module Protocol {
  import opened Base
  import opened Session
  import HashQuery
  import StaticsUpdate
  import MapDefinition
  import Login
  import TerrainUpdate

  /** A decoded live-sync packet; any other sub-command of 0x3F is ignored. */
  datatype Message =
    | HashQueryMsg(query: HashQuery.Query)
    | StaticsMsg(update: StaticsUpdate.Update)
    | MapDefMsg(definition: MapDefinition.MapDef)
    | LoginMsg(login: Login.LiveLogin)
    | OtherCommand(command: byte)
    | TerrainMsg(terrain: TerrainUpdate.TerrainMsg)

  function Handle(c: Client, env: Env, msg: Message): Outcome
    requires WellFormed(c)
  {
    match msg
    case HashQueryMsg(q) => HashQuery.OnHashQuery(c, env, q)
    case StaticsMsg(u) => StaticsUpdate.OnStaticsUpdate(c, env, u)
    case MapDefMsg(d) => MapDefinition.OnMapDefinition(c, env, d)
    case LoginMsg(l) => Login.OnLogin(c, env, l)
    case OtherCommand(_) => Done(c, [])
    case TerrainMsg(t) => TerrainUpdate.OnTerrainUpdate(c, env, t)
  }

  /** Every handler keeps a client well-formed, given bootstrap files that fit their maps. */
  lemma HandleKeepsWellFormed(c: Client, env: Env, msg: Message)
    requires WellFormed(c) && MapDefinition.LoadFits(env)
    ensures WellFormed(After(Handle(c, env, msg)))
  {
    match msg
    case HashQueryMsg(q) => HashQuery.HashQueryKeepsWellFormed(c, env, q);
    case StaticsMsg(u) => StaticsUpdate.StaticsUpdateKeepsWellFormed(c, env, u);
    case MapDefMsg(d) => MapDefinition.MapDefinitionKeepsWellFormed(c, env, d);
    case LoginMsg(l) => Login.LoginKeepsWellFormed(c, env, l);
    case OtherCommand(_) =>
    case TerrainMsg(t) => TerrainUpdate.TerrainUpdateKeepsWellFormed(c, env, t);
  }

  /** One received packet and the world it arrives in. */
  datatype Step = Step(env: Env, msg: Message)

  /**
   The client after a sequence of packets. A handler that throws leaves the
   state it reached, and the next packet is handled from there.
   */
  function Run(c: Client, steps: seq<Step>): (r: Client)
    requires WellFormed(c)
    requires forall i | 0 <= i < |steps| :: MapDefinition.LoadFits(steps[i].env)
    ensures WellFormed(r)
    decreases |steps|
  {
    if |steps| == 0 then c
    else
      HandleKeepsWellFormed(c, steps[0].env, steps[0].msg);
      Run(After(Handle(c, steps[0].env, steps[0].msg)), steps[1..])
  }

  /** Running two sequences one after the other is running their concatenation. */
  lemma {:induction false} RunAppend(c: Client, a: seq<Step>, b: seq<Step>)
    requires WellFormed(c)
    requires forall i | 0 <= i < |a| :: MapDefinition.LoadFits(a[i].env)
    requires forall i | 0 <= i < |b| :: MapDefinition.LoadFits(b[i].env)
    ensures forall i | 0 <= i < |a + b| :: MapDefinition.LoadFits((a + b)[i].env)
    ensures Run(c, a + b) == Run(Run(c, a), b)
    decreases |a|
  {
    if |a| > 0 {
      var c' := After(Handle(c, a[0].env, a[0].msg));
      HandleKeepsWellFormed(c, a[0].env, a[0].msg);
      RunAppend(c', a[1..], b);
      assert (a + b)[0] == a[0];
      assert (a + b)[1..] == a[1..] + b;
    } else {
      assert a + b == b;
    }
  }

  /** Without a session only a login or a terrain update can change anything. */
  lemma NoSessionIgnoresLiveCommands(c: Client, env: Env, msg: Message)
    requires WellFormed(c) && c.live.None?
    requires msg.HashQueryMsg? || msg.StaticsMsg? || msg.MapDefMsg? || msg.OtherCommand?
    ensures Handle(c, env, msg) == Done(c, [])
  {
  }
}
