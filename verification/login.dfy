/**
 Session start: the live-login confirmation (sub-command 0x02) and the shard
 name validation it relies on.

 The server sends a shard name; the client accepts it only if it contains no
 path separator and resolves to a non-empty path, keeps the session when the
 resolved path is the one it already has, and otherwise starts a fresh
 session whose display name is the last component of that path.
 */
module Login {
  import opened Base
  import opened Session

  /** The fixed length of a login confirmation. */
  const LoginLength := 43

  /** A decoded login confirmation: the message length and the shard name field. */
  datatype LiveLogin = LiveLogin(packetLength: nat, name: string)

  /** The characters `char.IsWhiteSpace` accepts in the Latin-1 range. */
  predicate IsWhiteSpace(ch: char) {
    ch in {' ', '\t', '\n', '\U{000B}', '\U{000C}', '\r', '\U{0085}', '\U{00A0}'}
  }

  /** `string.IsNullOrWhiteSpace` on a non-null string. */
  predicate Blank(s: string) {
    forall i | 0 <= i < |s| :: IsWhiteSpace(s[i])
  }

  predicate HasSeparator(s: string, separators: set<char>) {
    exists i | 0 <= i < |s| :: s[i] in separators
  }

  /**
   `ValidatePath`: a name holding a separator character is refused, and so is
   one the platform cannot resolve (`resolve` returns `None` where the source
   catches an exception) or resolves to the empty string.
   */
  function ValidatePath(name: string, env: Env): (path: Option<string>)
    ensures path.Some? <==> !HasSeparator(name, env.separators) && env.resolve(name).Some? && env.resolve(name).value != ""
    ensures path.Some? ==> path == env.resolve(name)
  {
    if HasSeparator(name, env.separators) then None
    else
      match env.resolve(name)
      case None => None
      case Some(path) => if path == "" then None else Some(path)
  }

  // ---------------------------------------------------------------------------
  // Splitting a path into components
  // ---------------------------------------------------------------------------

  /** The length of the run of non-separator characters that opens `s`. */
  function TokenLength(s: string, separators: set<char>): (n: nat)
    ensures n <= |s|
    ensures forall i | 0 <= i < n :: s[i] !in separators
    ensures n < |s| ==> s[n] in separators
  {
    if |s| == 0 || s[0] in separators then 0 else 1 + TokenLength(s[1..], separators)
  }

  /**
   `Split(separators, RemoveEmptyEntries)`: the maximal runs of
   non-separator characters, left to right.
   */
  function Split(s: string, separators: set<char>): (parts: seq<string>)
    ensures forall i | 0 <= i < |parts| :: |parts[i]| > 0
    ensures forall i, k | 0 <= i < |parts| && 0 <= k < |parts[i]| :: parts[i][k] !in separators
    decreases |s|
  {
    if |s| == 0 then []
    else if s[0] in separators then Split(s[1..], separators)
    else
      var n := TokenLength(s, separators);
      [s[..n]] + Split(s[n..], separators)
  }

  /** A path splits into no components exactly when it is made of separators only. */
  lemma {:induction false} SplitEmptyIff(s: string, separators: set<char>)
    ensures |Split(s, separators)| == 0 <==> forall k | 0 <= k < |s| :: s[k] in separators
    decreases |s|
  {
    if |s| > 0 && s[0] in separators {
      SplitEmptyIff(s[1..], separators);
      assert forall k | 1 <= k < |s| :: s[k] == s[1..][k - 1];
    }
  }

  /**
   The last component is a maximal run `s[i..j]`: it starts the string or
   follows a separator, holds no separator, and only separators come after it.
   */
  lemma {:induction false} SplitLast(s: string, separators: set<char>) returns (i: nat, j: nat)
    requires |Split(s, separators)| > 0
    ensures i < j <= |s|
    ensures s[i..j] == Split(s, separators)[|Split(s, separators)| - 1]
    ensures i == 0 || s[i - 1] in separators
    ensures forall k | i <= k < j :: s[k] !in separators
    ensures forall k | j <= k < |s| :: s[k] in separators
    decreases |s|, 1
  {
    if s[0] in separators {
      i, j := SplitLastAfterSeparator(s, separators);
    } else {
      i, j := SplitLastAfterToken(s, separators);
    }
  }

  /** `SplitLast` for a string that opens with a separator: the answer of its tail, shifted by one. */
  lemma {:induction false} SplitLastAfterSeparator(s: string, separators: set<char>) returns (i: nat, j: nat)
    requires |Split(s, separators)| > 0 && s[0] in separators
    ensures i < j <= |s|
    ensures s[i..j] == Split(s, separators)[|Split(s, separators)| - 1]
    ensures i == 0 || s[i - 1] in separators
    ensures forall k | i <= k < j :: s[k] !in separators
    ensures forall k | j <= k < |s| :: s[k] in separators
    decreases |s|, 0
  {
    var i', j' := SplitLast(s[1..], separators);
    ShiftRun(s, separators, 1, i', j');
    i, j := i' + 1, j' + 1;
  }

  /** `SplitLast` for a string that opens with a component: that component, or the last one after it. */
  lemma {:induction false} SplitLastAfterToken(s: string, separators: set<char>) returns (i: nat, j: nat)
    requires |s| > 0 && s[0] !in separators
    ensures i < j <= |s|
    ensures s[i..j] == Split(s, separators)[|Split(s, separators)| - 1]
    ensures i == 0 || s[i - 1] in separators
    ensures forall k | i <= k < j :: s[k] !in separators
    ensures forall k | j <= k < |s| :: s[k] in separators
    decreases |s|, 0
  {
    var n := TokenLength(s, separators);
    var rest := s[n..];
    assert Split(s, separators) == [s[..n]] + Split(rest, separators);
    if |Split(rest, separators)| == 0 {
      SplitEmptyIff(rest, separators);
      i, j := 0, n;
      assert forall k | n <= k < |s| :: s[k] == rest[k - n];
    } else {
      var i', j' := SplitLast(rest, separators);
      assert i' != 0 by {
        assert rest[0] == s[n] && s[n] in separators;
      }
      assert Split(s, separators)[|Split(s, separators)| - 1] == Split(rest, separators)[|Split(rest, separators)| - 1];
      ShiftRun(s, separators, n, i', j');
      i, j := i' + n, j' + n;
    }
  }

  /** A maximal run found in the suffix `s[n..]` is the same maximal run of `s`, shifted by `n`. */
  lemma ShiftRun(s: string, separators: set<char>, n: nat, i': nat, j': nat)
    requires n <= |s| && i' < j' <= |s| - n
    requires i' == 0 ==> n == 0 || s[n - 1] in separators
    requires i' == 0 || s[n..][i' - 1] in separators
    requires forall k | i' <= k < j' :: s[n..][k] !in separators
    requires forall k | j' <= k < |s| - n :: s[n..][k] in separators
    ensures s[n + i'..n + j'] == s[n..][i'..j']
    ensures n + i' == 0 || s[n + i' - 1] in separators
    ensures forall k | n + i' <= k < n + j' :: s[k] !in separators
    ensures forall k | n + j' <= k < |s| :: s[k] in separators
  {
    assert forall k | n <= k < |s| :: s[k] == s[n..][k - n];
  }

  // ---------------------------------------------------------------------------
  // The handler
  // ---------------------------------------------------------------------------

  /** A session right after login: no valid maps, no caches, no geometry, no store. */
  function NewSession(shardName: string, displayName: string): Session {
    Session(shardName, displayName, [], 0, None, None, None)
  }

  /**
   Sub-command 0x02. A blank or refused name first clears the session; the
   source then splits the refused name anyway, which throws. A name with no
   component throws while the new session is being built, so the session in
   place at that point stays.
   */
  function OnLogin(c: Client, env: Env, m: LiveLogin): Outcome {
    if m.packetLength < LoginLength then Done(c, [])
    else
      var name := ValidatePath(m.name, env);
      var live := if name.None? || Blank(name.value) then None else c.live;
      if name.Some? && live.Some? && live.value.shardName == name.value then Done(c, [])
      else if name.None? then Threw(c.(live := None), NullReference)
      else
        var parts := Split(name.value, env.separators);
        if |parts| == 0 then Threw(c.(live := live), IndexOutOfRange)
        else Done(c.(live := Some(NewSession(name.value, parts[|parts| - 1]))), [])
  }

  /** A refused name ends the session and then throws on the null name. */
  lemma LoginRefusesSeparator(c: Client, env: Env, m: LiveLogin, k: nat)
    requires m.packetLength >= LoginLength
    requires k < |m.name| && m.name[k] in env.separators
    ensures OnLogin(c, env, m) == Threw(c.(live := None), NullReference)
  {
  }

  /** Confirming the shard the session already runs on changes nothing. */
  lemma LoginSameShardKeepsSession(c: Client, env: Env, m: LiveLogin)
    requires m.packetLength >= LoginLength
    requires c.live.Some? && ValidatePath(m.name, env) == Some(c.live.value.shardName)
    requires !Blank(c.live.value.shardName)
    ensures OnLogin(c, env, m) == Done(c, [])
  {
  }

  /**
   A new accepted name starts a fresh session on the resolved path, whose
   display name is that path's last component: a maximal run of
   non-separator characters followed only by separators. A blank path ends
   the session first, so it starts a fresh one even on the same shard.
   */
  lemma LoginStartsSession(c: Client, env: Env, m: LiveLogin) returns (i: nat, j: nat)
    requires m.packetLength >= LoginLength
    requires ValidatePath(m.name, env).Some?
    requires Blank(ValidatePath(m.name, env).value) || c.live.None? || c.live.value.shardName != ValidatePath(m.name, env).value
    requires !forall k | 0 <= k < |ValidatePath(m.name, env).value| :: ValidatePath(m.name, env).value[k] in env.separators
    ensures var path := ValidatePath(m.name, env).value;
      && i < j <= |path|
      && OnLogin(c, env, m).Done?
      && OnLogin(c, env, m).client.loader == c.loader
      && OnLogin(c, env, m).client.live == Some(Session(path, path[i..j], [], 0, None, None, None))
      && (i == 0 || path[i - 1] in env.separators)
      && (forall k | i <= k < j :: path[k] !in env.separators)
      && (forall k | j <= k < |path| :: path[k] in env.separators)
  {
    var path := ValidatePath(m.name, env).value;
    SplitEmptyIff(path, env.separators);
    i, j := SplitLast(path, env.separators);
  }

  /**
   A name that resolves to separators only has no last component: the split
   throws before the new session is assigned. A non-blank path therefore
   keeps the session it had (or returns early when it is already that
   shard's); a blank one has cleared it first.
   */
  lemma LoginSeparatorsOnlyThrows(c: Client, env: Env, m: LiveLogin)
    requires m.packetLength >= LoginLength
    requires ValidatePath(m.name, env).Some?
    requires forall k | 0 <= k < |ValidatePath(m.name, env).value| :: ValidatePath(m.name, env).value[k] in env.separators
    ensures var path := ValidatePath(m.name, env).value;
      OnLogin(c, env, m) ==
        if !Blank(path) && c.live.Some? && c.live.value.shardName == path then Done(c, [])
        else Threw(c.(live := if Blank(path) then None else c.live), IndexOutOfRange)
    ensures !Blank(ValidatePath(m.name, env).value) ==> After(OnLogin(c, env, m)) == c
  {
    SplitEmptyIff(ValidatePath(m.name, env).value, env.separators);
  }

  /** Login never touches the loader, and leaves a well-formed client well-formed. */
  lemma LoginKeepsWellFormed(c: Client, env: Env, m: LiveLogin)
    requires WellFormed(c)
    ensures After(OnLogin(c, env, m)).loader == c.loader
    ensures WellFormed(After(OnLogin(c, env, m)))
  {
  }
}
