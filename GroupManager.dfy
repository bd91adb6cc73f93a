/** Shared groups (src/utils/groupManager.ts): a table of groups keyed by their six-character join
    code, kept in browser storage in the original and in a field of `GroupStore` here. */
module GroupManager {
  import opened Types

  datatype Group = Group(id: string, name: string, code: string, createdAt: string, data: AppData)

  /** What the storage slot holds: nothing, something that does not parse, or a table. */
  datatype StoredGroups = Absent | Unreadable | Table(groups: map<string, Group>)

  /** `getStoredGroups` (lines 58-66): a missing or unparsable slot reads as the empty table. */
  function Loaded(stored: StoredGroups): (groups: map<string, Group>)
    ensures stored.Table? ==> groups == stored.groups
    ensures !stored.Table? ==> groups == map[]
  {
    match stored
    case Table(groups) => groups
    case _ => map[]
  }

  /** Every group is filed under its own code. */
  ghost predicate WellFiled(groups: map<string, Group>) {
    forall code :: code in groups ==> groups[code].code == code
  }

  // ---------------------------------------------------------------------------------------------
  // Codes (lines 68-75)

  const Alphabet: string := "ABCDEFGHIJKLMNOPQRSTUVWXYZ0123456789"

  /** Six draws of `Math.floor(Math.random() * chars.length)`, each an index into the alphabet. */
  predicate ValidPicks(picks: seq<int>) {
    |picks| == 6 && forall i :: 0 <= i < 6 ==> 0 <= picks[i] < |Alphabet|
  }

  /** A join code: six characters of the alphabet. */
  ghost predicate IsCode(code: string) {
    |code| == 6 && forall i :: 0 <= i < 6 ==> code[i] in Alphabet
  }

  /** The code the draws spell. */
  function CodeOf(picks: seq<int>): (code: string)
    requires ValidPicks(picks)
    ensures IsCode(code)
  {
    seq(6, i requires 0 <= i < 6 => Alphabet[picks[i]])
  }

  /** `generateGroupCode`: appends one character per draw. */
  method GenerateGroupCode(picks: seq<int>) returns (code: string)
    requires ValidPicks(picks)
    ensures code == CodeOf(picks)
    ensures forall i :: 0 <= i < 6 ==> code[i] == Alphabet[picks[i]]
  {
    code := "";
    for i := 0 to 6
      invariant |code| == i
      invariant forall k :: 0 <= k < i ==> code[k] == Alphabet[picks[k]]
    {
      code := code + [Alphabet[picks[i]]];
    }
  }

  /** The position of a character of the alphabet. */
  function IndexIn(c: char, s: string): (i: int)
    requires c in s
    ensures 0 <= i < |s| && s[i] == c
  {
    if s[0] == c then 0 else 1 + IndexIn(c, s[1..])
  }

  /** Every six-character code over the alphabet can be drawn. */
  lemma {:induction false} EveryCodeCanBeDrawn(code: string)
    requires IsCode(code)
    ensures exists picks :: ValidPicks(picks) && CodeOf(picks) == code
  {
    var picks := seq(6, i requires 0 <= i < 6 => IndexIn(code[i], Alphabet));
    assert ValidPicks(picks);
    assert CodeOf(picks) == code;
  }

  /** The position a character has in the alphabet: letters first, then digits. */
  function Position(c: char): int {
    if 'A' <= c <= 'Z' then c as int - 'A' as int else c as int - '0' as int + 26
  }

  /** No character occurs twice in the alphabet: each one's position gives it back. */
  lemma AlphabetDistinct()
    ensures forall i :: 0 <= i < |Alphabet| ==> Position(Alphabet[i]) == i
    ensures forall i, j :: 0 <= i < j < |Alphabet| ==> Alphabet[i] != Alphabet[j]
  {
    forall i | 0 <= i < |Alphabet| ensures Position(Alphabet[i]) == i {
      if i < 26 {
        assert Alphabet[..26] == "ABCDEFGHIJKLMNOPQRSTUVWXYZ";
        assert Alphabet[i] == Alphabet[..26][i];
      } else {
        assert Alphabet[26..] == "0123456789";
        assert Alphabet[i] == Alphabet[26..][i - 26];
      }
    }
  }

  /** Different draws give different codes. */
  lemma {:induction false} DrawsDetermineCode(p1: seq<int>, p2: seq<int>)
    requires ValidPicks(p1) && ValidPicks(p2) && CodeOf(p1) == CodeOf(p2)
    ensures p1 == p2
  {
    AlphabetDistinct();
    forall i | 0 <= i < 6 ensures p1[i] == p2[i] {
      assert Alphabet[p1[i]] == CodeOf(p1)[i] == CodeOf(p2)[i] == Alphabet[p2[i]];
    }
  }

  // ---------------------------------------------------------------------------------------------
  // The table operations

  /** Lines 26 and 40-41 as updates of the table. */
  function Stamped(g: Group, data: AppData, stamp: string): (r: Group)
    ensures r.data.lastUpdated == stamp
    ensures r.data.(lastUpdated := data.lastUpdated) == data
    ensures r.(data := g.data) == g
  {
    g.(data := data.(lastUpdated := stamp))
  }

  /** Creating files the new group under its code, replacing any group already there; joining
      then finds it, and every other code is unaffected. */
  lemma CreateThenJoin(groups: map<string, Group>, g: Group)
    ensures var after := groups[g.code := g];
            && g.code in after && after[g.code] == g
            && (forall code :: code != g.code ==> (code in after <==> code in groups))
            && (forall code :: code != g.code && code in groups ==> after[code] == groups[code])
            && (WellFiled(groups) ==> WellFiled(after))
            && (g.code in groups ==> after.Keys == groups.Keys)
  {
  }

  /** The storage slot behind the group functions, with each function as a method. */
  class GroupStore {
    var stored: StoredGroups

    constructor(stored: StoredGroups)
      ensures this.stored == stored
    {
      this.stored := stored;
    }

    /** The table as `getStoredGroups` reads it. */
    function Groups(): map<string, Group>
      reads this
    {
      Loaded(stored)
    }

    /** `createGroup` (lines 14-30); `id` and `createdAt` stand for `Date.now()` and the current
        timestamp, `picks` for the random draws. The code is not checked against existing ones. */
    method CreateGroup(groupName: string, initialData: AppData, id: string, createdAt: string, picks: seq<int>)
      returns (code: string)
      requires ValidPicks(picks)
      modifies this
      ensures code == CodeOf(picks)
      ensures stored == Table(old(Groups())[code := Group(id, groupName, code, createdAt, initialData)])
      ensures code in Groups() && Groups()[code].code == code && Groups()[code].data == initialData
    {
      var groups := Groups();
      code := GenerateGroupCode(picks);
      var newGroup := Group(id, groupName, code, createdAt, initialData);
      groups := groups[code := newGroup];
      stored := Table(groups);
    }

    /** `joinGroup` (lines 32-35). */
    method JoinGroup(groupCode: string) returns (g: Option<Group>)
      ensures groupCode in Groups() ==> g == Some(Groups()[groupCode])
      ensures groupCode !in Groups() ==> g == None
    {
      var groups := Groups();
      if groupCode in groups {
        g := Some(groups[groupCode]);
      } else {
        g := None;
      }
    }

    /** `updateGroupData` (lines 37-46): only a known group is updated, its data replaced and
        stamped; `stamp` stands for the current timestamp. */
    method UpdateGroupData(groupCode: string, data: AppData, stamp: string) returns (ok: bool)
      modifies this
      ensures ok <==> groupCode in old(Groups())
      ensures ok ==> stored == Table(old(Groups())[groupCode := Stamped(old(Groups())[groupCode], data, stamp)])
      ensures !ok ==> stored == old(stored)
    {
      var groups := Groups();
      if groupCode in groups {
        groups := groups[groupCode := Stamped(groups[groupCode], data, stamp)];
        stored := Table(groups);
        return true;
      }
      return false;
    }

    /** `getGroupData` (lines 48-51). */
    method GetGroupData(groupCode: string) returns (d: Option<AppData>)
      ensures groupCode in Groups() ==> d == Some(Groups()[groupCode].data)
      ensures groupCode !in Groups() ==> d == None
    {
      var groups := Groups();
      if groupCode in groups {
        d := Some(groups[groupCode].data);
      } else {
        d := None;
      }
    }

    /** `listUserGroups` (lines 53-56): one group per stored code. */
    method ListUserGroups() returns (list: seq<Group>)
      ensures |list| == |Groups().Keys|
      ensures forall code :: code in Groups() ==> Groups()[code] in list
      ensures forall g :: g in list ==> g in Groups().Values
    {
      var groups := Groups();
      list := [];
      var remaining := groups.Keys;
      ghost var listed: set<string> := {};
      while remaining != {}
        invariant remaining + listed == groups.Keys && remaining !! listed
        invariant |list| == |listed|
        invariant forall code :: code in listed ==> groups[code] in list
        invariant forall g :: g in list ==> g in groups.Values
        decreases |remaining|
      {
        var code :| code in remaining;
        list := list + [groups[code]];
        remaining := remaining - {code};
        listed := listed + {code};
      }
    }
  }

  /** Updating a known group changes its data and stamp only; other groups, its code, name, id and
      creation time are kept, and the table stays well filed. */
  lemma UpdateTouchesOneGroup(groups: map<string, Group>, code: string, data: AppData, stamp: string)
    requires code in groups
    ensures var after := groups[code := Stamped(groups[code], data, stamp)];
            && after.Keys == groups.Keys
            && after[code].data == data.(lastUpdated := stamp)
            && after[code].(data := groups[code].data) == groups[code]
            && (forall c :: c in groups && c != code ==> after[c] == groups[c])
            && (WellFiled(groups) ==> WellFiled(after))
  {
  }
}
