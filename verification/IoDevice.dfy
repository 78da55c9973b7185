/** Ownership of an IO device: tokens with permissions, some of them exclusive. */
module IoDevice {

  datatype Permission = Read | Write | Request

  datatype Token = Token(permissions: set<Permission>, process: int, available: bool)

  /** What a token takes away from others: nothing once it is available again. */
  function Exclusive(t: Token, multiple: set<Permission>): set<Permission> {
    if t.available then {} else t.permissions - multiple
  }

  ghost predicate TakenBy(tokens: seq<Token>, multiple: set<Permission>, p: Permission) {
    exists i :: 0 <= i < |tokens| && p in Exclusive(tokens[i], multiple)
  }

  /** What is taken is the union of what the live tokens exclude, no two of them exclude
      the same, and none has a permission the device does not support. */
  ghost predicate Consistent(tokens: seq<Token>, taken: set<Permission>, supports: set<Permission>, multiple: set<Permission>) {
    && (forall p :: p in taken <==> TakenBy(tokens, multiple, p))
    && (forall i, j | 0 <= i < j < |tokens| :: Exclusive(tokens[i], multiple) !! Exclusive(tokens[j], multiple))
    && (forall i | 0 <= i < |tokens| && !tokens[i].available :: tokens[i].permissions <= supports)
  }

  class Device {
    const supports: set<Permission>
    const multiple: set<Permission>
    var tokens: seq<Token>
    var permissionsTaken: set<Permission>

    ghost predicate Valid()
      reads this
    {
      Consistent(tokens, permissionsTaken, supports, multiple)
    }

    constructor (supports: set<Permission>, multiple: set<Permission>)
      ensures Valid() && tokens == [] && permissionsTaken == {} && this.supports == supports && this.multiple == multiple
    {
      this.supports, this.multiple := supports, multiple;
      tokens, permissionsTaken := [], {};
    }

    /** Whether a permission, if asked for, can be had. */
    method CheckAvailability(permissions: set<Permission>, p: Permission) returns (ok: bool)
      ensures ok <==> (p in permissions ==> p in supports && (p in multiple || p !in permissionsTaken))
    {
      if p in permissions {
        if p !in multiple && p in permissionsTaken {
          return false;
        }
        if p !in supports {
          return false;
        }
      }
      return true;
    }

    /** A token with the permissions asked for, at an index that was not live; -1 if they
        cannot all be had, and then nothing changes. */
    method Own(permissions: set<Permission>, process: int) returns (id: int)
      requires Valid()
      modifies this
      ensures Valid()
      ensures id == -1 <==> !(permissions <= supports && (permissions - multiple) !! old(permissionsTaken))
      ensures id == -1 ==> tokens == old(tokens) && permissionsTaken == old(permissionsTaken)
      ensures id != -1 ==>
                && 0 <= id < |tokens| && id <= |old(tokens)| && tokens[id] == Token(permissions, process, false)
                && (id < |old(tokens)| ==> old(tokens)[id].available && tokens == old(tokens)[id := tokens[id]])
                && (id == |old(tokens)| ==> tokens == old(tokens) + [tokens[id]] && forall t | t in old(tokens) :: !t.available)
                && permissionsTaken == old(permissionsTaken) + (permissions - multiple)
    {
      hide Consistent;
      var r := CheckAvailability(permissions, Read);
      if !r {
        return -1;
      }
      var w := CheckAvailability(permissions, Write);
      if !w {
        return -1;
      }
      var q := CheckAvailability(permissions, Request);
      if !q {
        return -1;
      }
      ghost var taken := permissionsTaken;
      Take(permissions, Read);
      Take(permissions, Request);
      Take(permissions, Write);
      AllPermissions(permissions);
      assert permissionsTaken == taken + (permissions - multiple);
      var token := Token(permissions, process, false);
      var i := 0;
      while i < |tokens|
        invariant 0 <= i <= |tokens| && tokens == old(tokens) && permissionsTaken == taken + (permissions - multiple)
        invariant forall j | 0 <= j < i :: !tokens[j].available
      {
        if tokens[i].available {
          OwnKeeps(tokens, taken, supports, multiple, token, i);
          tokens := tokens[i := token];
          return i;
        }
        i := i + 1;
      }
      OwnKeeps(tokens, taken, supports, multiple, token, |tokens|);
      tokens := tokens + [token];
      id := |tokens| - 1;
    }

    method Take(permissions: set<Permission>, p: Permission)
      modifies this`permissionsTaken
      ensures permissionsTaken == old(permissionsTaken) + (if p in permissions && p !in multiple then {p} else {})
    {
      if p !in multiple && p in permissions {
        permissionsTaken := permissionsTaken + {p};
      }
    }

    /** Gives a token back; only a live token of the process that runs can be. */
    method Free(id: int, currentPid: int)
      requires Valid()
      modifies this
      ensures Valid()
      ensures 0 <= id < |old(tokens)| && !old(tokens)[id].available && old(tokens)[id].process == currentPid ==>
                && tokens == old(tokens)[id := old(tokens)[id].(available := true)]
                && permissionsTaken == old(permissionsTaken) - (old(tokens)[id].permissions - multiple)
      ensures !(0 <= id < |old(tokens)| && !old(tokens)[id].available && old(tokens)[id].process == currentPid) ==>
                tokens == old(tokens) && permissionsTaken == old(permissionsTaken)
    {
      hide Consistent;
      if id < 0 || id >= |tokens| || tokens[id].available || tokens[id].process != currentPid {
        return;
      }
      FreeKeeps(tokens, permissionsTaken, supports, multiple, id);
      ghost var taken := permissionsTaken;
      Drop(tokens[id].permissions, Read);
      Drop(tokens[id].permissions, Write);
      Drop(tokens[id].permissions, Request);
      AllPermissions(tokens[id].permissions);
      assert permissionsTaken == taken - (tokens[id].permissions - multiple);
      tokens := tokens[id := tokens[id].(available := true)];
    }

    method Drop(permissions: set<Permission>, p: Permission)
      modifies this`permissionsTaken
      ensures permissionsTaken
              == old(permissionsTaken) - (if p in supports && p !in multiple && p in permissions then {p} else {})
    {
      if p in supports && p !in multiple && p in permissions {
        permissionsTaken := permissionsTaken - {p};
      }
    }

    /** Whether the process that runs may use the device in some way through a token. */
    method CheckDevice(id: int, currentPid: int, p: Permission) returns (ok: bool)
      ensures ok <==> 0 <= id < |tokens| && !tokens[id].available && tokens[id].process == currentPid && p in tokens[id].permissions
    {
      if id < 0 || id >= |tokens| || tokens[id].available || tokens[id].process != currentPid {
        return false;
      }
      return p in tokens[id].permissions;
    }

    /** What the end of a task does to the tokens it holds on this device: they are freed
        exactly if the task is the one that runs. */
    method KillTokens(ids: seq<int>, process: int, currentPid: int)
      requires Valid()
      requires forall i | 0 <= i < |ids| && ids[i] != -1 ::
                 0 <= ids[i] < |tokens| && !tokens[ids[i]].available && tokens[ids[i]].process == process
      modifies this
      ensures Valid() && |tokens| == |old(tokens)|
      ensures forall j | 0 <= j < |tokens| ::
                tokens[j] == if process == currentPid && j in ids then old(tokens)[j].(available := true) else old(tokens)[j]
      ensures process != currentPid ==> permissionsTaken == old(permissionsTaken)
    {
      hide Consistent;
      var i := 0;
      while i < |ids|
        invariant 0 <= i <= |ids| && Valid() && |tokens| == |old(tokens)|
        invariant forall j | 0 <= j < |tokens| ::
                    tokens[j] == if process == currentPid && j in ids[..i] then old(tokens)[j].(available := true) else old(tokens)[j]
        invariant process != currentPid ==> permissionsTaken == old(permissionsTaken)
      {
        assert forall j :: j in ids[..i + 1] <==> j in ids[..i] || j == ids[i];
        if ids[i] != -1 {
          Free(ids[i], currentPid);
        }
        i := i + 1;
      }
    }
  }

  lemma AllPermissions(s: set<Permission>)
    ensures forall p | p in s :: p == Read || p == Write || p == Request
  {
  }

  lemma OwnKeeps(tokens: seq<Token>, taken: set<Permission>, supports: set<Permission>, multiple: set<Permission>, t: Token, i: nat)
    requires Consistent(tokens, taken, supports, multiple) && !t.available
    requires t.permissions <= supports && (t.permissions - multiple) !! taken
    requires i <= |tokens| && (i < |tokens| ==> tokens[i].available)
    ensures Consistent(if i < |tokens| then tokens[i := t] else tokens + [t], taken + (t.permissions - multiple), supports, multiple)
  {
    var after := if i < |tokens| then tokens[i := t] else tokens + [t];
    assert Exclusive(after[i], multiple) == t.permissions - multiple;
    forall p
      ensures p in taken + (t.permissions - multiple) <==> TakenBy(after, multiple, p)
    {
      OwnTaken(tokens, after, multiple, t, i, p);
    }
    forall j | 0 <= j < |after| && j != i
      ensures Exclusive(after[j], multiple) !! (t.permissions - multiple)
    {
      assert Exclusive(after[j], multiple) <= taken by {
        assert forall p | p in Exclusive(tokens[j], multiple) :: TakenBy(tokens, multiple, p);
      }
    }
  }

  lemma OwnTaken(tokens: seq<Token>, after: seq<Token>, multiple: set<Permission>, t: Token, i: nat, p: Permission)
    requires !t.available && i <= |tokens| && (i < |tokens| ==> tokens[i].available)
    requires after == if i < |tokens| then tokens[i := t] else tokens + [t]
    ensures TakenBy(after, multiple, p) <==> TakenBy(tokens, multiple, p) || p in t.permissions - multiple
  {
    if TakenBy(tokens, multiple, p) {
      var j :| 0 <= j < |tokens| && p in Exclusive(tokens[j], multiple);
      assert p in Exclusive(after[j], multiple);
    }
    if p in t.permissions - multiple {
      assert p in Exclusive(after[i], multiple);
    }
  }

  lemma FreeKeeps(tokens: seq<Token>, taken: set<Permission>, supports: set<Permission>, multiple: set<Permission>, i: nat)
    requires Consistent(tokens, taken, supports, multiple) && i < |tokens| && !tokens[i].available
    ensures tokens[i].permissions <= supports
    ensures Consistent(tokens[i := tokens[i].(available := true)], taken - (tokens[i].permissions - multiple), supports, multiple)
  {
    var after := tokens[i := tokens[i].(available := true)];
    var gone := tokens[i].permissions - multiple;
    assert Exclusive(tokens[i], multiple) == gone;
    forall p
      ensures p in taken - gone <==> TakenBy(after, multiple, p)
    {
      if p in taken - gone {
        var j :| 0 <= j < |tokens| && p in Exclusive(tokens[j], multiple);
        assert p in Exclusive(after[j], multiple);
      }
      if TakenBy(after, multiple, p) {
        var j :| 0 <= j < |after| && p in Exclusive(after[j], multiple);
        assert j != i && p in Exclusive(tokens[j], multiple);
      }
    }
  }

  /** Two live tokens never share an exclusive permission. */
  lemma ExclusiveMeans(tokens: seq<Token>, taken: set<Permission>, supports: set<Permission>, multiple: set<Permission>,
                       i: nat, j: nat, p: Permission)
    requires Consistent(tokens, taken, supports, multiple) && i < |tokens| && j < |tokens|
    requires !tokens[i].available && !tokens[j].available && p !in multiple
    requires p in tokens[i].permissions && p in tokens[j].permissions
    ensures i == j
  {
    assert p in Exclusive(tokens[i], multiple) && p in Exclusive(tokens[j], multiple);
  }

  /** A task that is killed while another one runs leaves its exclusive token behind, and
      the device is refused from then on. */
  method TokenLeaks() returns (id: int, again: int)
    ensures id == 0 && again == -1
  {
    hide Consistent;
    var device := new Device({Read}, {});
    id := device.Own({Read}, 7);
    assert Read in device.permissionsTaken;
    device.KillTokens([id], 7, 8);
    assert Read in {Read} - device.multiple;
    again := device.Own({Read}, 8);
  }
}
