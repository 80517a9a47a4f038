/**
 * Chat command dispatch (`ChatHandler.handleChatCommand` in
 * server/lib/chat-handler.js): a message is compared with the command
 * prefixes in a fixed order; a recognised command is never broadcast,
 * anything else is. Only the `/setname` command is modelled beyond its
 * dispatch; the other three throw on the server's handler.
 */
module ChatCommands {
  import opened Wrappers
  import opened Entities

  const SetNamePrefix: string := "/setname"
  const ImpulsePrefix: string := "/impulse"
  const ShootPrefix: string := "/shoot"
  const SpawnPrefix: string := "/spawn"

  /** `replace` removes the first occurrence of this text, space included. */
  const SetNameArgument: string := "/setname "

  /** `substring(0, 30)`: names keep at most 30 characters. */
  const MaxNameLength: nat := 30

  datatype Command = SetName | Impulse | Shoot | Spawn | Plain

  /**
   * How `handleChatCommand` ends: it returns true (the message is
   * broadcast), returns false (the message is withheld), or throws before
   * returning (nothing is broadcast either).
   */
  datatype Outcome = Broadcast | Withheld | Throws

  /** `message.indexOf(prefix) === 0`. */
  predicate StartsWith(message: string, prefix: string) {
    |prefix| <= |message| && message[..|prefix|] == prefix
  }

  /** The branch `handleChatCommand` takes: the first prefix the message starts with. */
  function Classify(message: string): (c: Command)
    ensures c == SetName <==> StartsWith(message, SetNamePrefix)
    ensures c == Plain <==>
              !StartsWith(message, SetNamePrefix) && !StartsWith(message, ImpulsePrefix) &&
              !StartsWith(message, ShootPrefix) && !StartsWith(message, SpawnPrefix)
  {
    if StartsWith(message, SetNamePrefix) then SetName
    else if StartsWith(message, ImpulsePrefix) then Impulse
    else if StartsWith(message, ShootPrefix) then Shoot
    else if StartsWith(message, SpawnPrefix) then Spawn
    else Plain
  }

  /** `pattern` occurs in `s` starting at position `k`. */
  predicate OccursAt(s: string, pattern: string, k: nat) {
    k + |pattern| <= |s| && s[k..k + |pattern|] == pattern
  }

  /** `s.indexOf(pattern)`: the first position where `pattern` occurs, if any. */
  function IndexOf(s: string, pattern: string): (r: Option<nat>)
    ensures r.Some? ==> OccursAt(s, pattern, r.value)
    ensures r.Some? ==> forall k: nat :: k < r.value ==> !OccursAt(s, pattern, k)
    ensures r.None? ==> forall k: nat :: !OccursAt(s, pattern, k)
  {
    if |s| < |pattern| then None
    else if s[..|pattern|] == pattern then Some(0)
    else
      var r := IndexOf(s[1..], pattern);
      assert !OccursAt(s, pattern, 0) by {
        assert s[0..|pattern|] == s[..|pattern|];
      }
      assert forall k: nat | 1 <= k :: OccursAt(s, pattern, k) == OccursAt(s[1..], pattern, k - 1) by {
        forall k: nat | 1 <= k
          ensures OccursAt(s, pattern, k) == OccursAt(s[1..], pattern, k - 1)
        {
          if k + |pattern| <= |s| {
            assert s[1..][k - 1..k - 1 + |pattern|] == s[k..k + |pattern|];
          }
        }
      }
      match r
      case None => None
      case Some(i) => Some(i + 1)
  }

  /**
   * `s.replace(pattern, '')` with a string pattern: only the first
   * occurrence goes. Putting the pattern back where it was gives `s` again.
   */
  function RemoveFirst(s: string, pattern: string): (r: string)
    ensures IndexOf(s, pattern).None? ==> r == s
    ensures IndexOf(s, pattern).Some? ==>
              var i := IndexOf(s, pattern).value;
              i <= |r| && s == r[..i] + pattern + r[i..]
  {
    match IndexOf(s, pattern)
    case None => s
    case Some(i) =>
      var r := s[..i] + s[i + |pattern|..];
      assert r[..i] == s[..i] && r[i..] == s[i + |pattern|..];
      assert s == s[..i] + s[i..i + |pattern|] + s[i + |pattern|..];
      r
  }

  /** `s.substring(0, n)` for a non-negative `n`: the first `n` characters, or all of a shorter `s`. */
  function Truncate(s: string, n: nat): (r: string)
    ensures r <= s
    ensures |r| == if |s| <= n then |s| else n
  {
    if |s| <= n then s else s[..n]
  }

  /**
   * The name `/setname` gives the player: what is left once the first
   * "/setname " is removed, cut to 30 characters. A short enough remainder
   * is kept whole.
   */
  function NewName(message: string): (name: string)
    ensures |name| <= MaxNameLength && name <= RemoveFirst(message, SetNameArgument)
    ensures |RemoveFirst(message, SetNameArgument)| <= MaxNameLength ==> name == RemoveFirst(message, SetNameArgument)
  {
    Truncate(RemoveFirst(message, SetNameArgument), MaxNameLength)
  }

  /**
   * `handleChatCommand` on the handler the server builds: `/setname`
   * renames the player and is withheld, any unrecognised message is
   * broadcast. The server constructs its handler without an entity manager
   * (server/server.js:27), so the `/impulse`, `/shoot` and `/spawn`
   * branches throw as soon as they read `this.entityManager`, before they
   * act or return.
   */
  method HandleChatCommand(player: Entity, message: string) returns (outcome: Outcome)
    modifies player`name
    ensures outcome == Broadcast <==> Classify(message) == Plain
    ensures outcome == Withheld <==> Classify(message) == SetName
    ensures outcome == Throws <==> Classify(message) in {Impulse, Shoot, Spawn}
    ensures Classify(message) == SetName ==> player.name == NewName(message)
    ensures Classify(message) != SetName ==> player.name == old(player.name)
  {
    if StartsWith(message, SetNamePrefix) {
      var name := NewName(message);
      player.SetName(name);
      return Withheld;
    }
    if StartsWith(message, ImpulsePrefix) {
      return Throws;
    }
    if StartsWith(message, ShootPrefix) {
      return Throws;
    }
    if StartsWith(message, SpawnPrefix) {
      return Throws;
    }
    return Broadcast;
  }

  /** `/setname ` followed by a name sets the name to its first 30 characters. */
  lemma SetNameTakesArgument(name: string)
    ensures Classify(SetNameArgument + name) == SetName
    ensures NewName(SetNameArgument + name) == Truncate(name, MaxNameLength)
  {
    var message := SetNameArgument + name;
    assert message[..|SetNameArgument|] == SetNameArgument;
    assert message[..|SetNamePrefix|] == SetNamePrefix;
    assert message[|SetNameArgument|..] == name;
  }

  /** Any text glued to `/setname` still counts as the command. */
  lemma GluedPrefixIsSetName(rest: string)
    ensures Classify(SetNamePrefix + rest) == SetName
  {
    assert (SetNamePrefix + rest)[..|SetNamePrefix|] == SetNamePrefix;
  }

  /**
   * Without the space nothing is removed when the message holds no
   * "/setname " anywhere: "/setnameBob" renames the player "/setnameBob".
   */
  lemma GluedNameKeepsPrefix()
    ensures Classify("/setnameBob") == SetName
    ensures NewName("/setnameBob") == "/setnameBob"
  {
    var m := "/setnameBob";
    assert m[..|SetNamePrefix|] == SetNamePrefix;
    forall k: nat | k + |SetNameArgument| <= |m|
      ensures !OccursAt(m, SetNameArgument, k)
    {
      assert m[k..k + |SetNameArgument|][8] != ' ';
    }
  }

  /** Every recognised command is withheld from the broadcast; only plain messages go out. */
  lemma CommandsAreNotBroadcast(message: string)
    ensures (StartsWith(message, ImpulsePrefix) || StartsWith(message, ShootPrefix) || StartsWith(message, SpawnPrefix))
              ==> Classify(message) != Plain
    ensures Classify(message) == Plain ==> !StartsWith(message, "/setname ")
  {
    if StartsWith(message, "/setname ") {
      assert message[..|SetNamePrefix|] == message[..|SetNameArgument|][..|SetNamePrefix|];
    }
  }
}
