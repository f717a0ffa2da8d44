/** Kerning groups and kerning pairs of a UFO font: adding and editing a group
    in a loaded font, and the two read-only listings of groups.plist and
    kerning.plist. */
module Kerning {
  import opened Wrappers
  import opened Plist

  /** Namespace of the groups on the first (left) side of a kerning pair. */
  const LeftPrefix: string := "public.kern1."
  /** Namespace of the groups on the second (right) side of a kerning pair. */
  const RightPrefix: string := "public.kern2."

  predicate HasPrefix(s: string, prefix: string)
  {
    |prefix| <= |s| && s[..|prefix|] == prefix
  }

  datatype KerningError =
    | InvalidSide(side: string)        // the side is neither "left" nor "right"
    | InvalidName(name: string)        // rejected as a glyph or group name
    | GroupNotFound(groupName: string) // editing a group the font does not have

  /** A Unicode control character (general category Cc). */
  predicate IsControl(c: char)
  {
    c < ' ' || ('\U{7F}' <= c <= '\U{9F}')
  }

  /** The rule a font object name must follow: not empty, no control character. */
  predicate ValidName(s: string)
  {
    |s| > 0 && forall k :: 0 <= k < |s| ==> !IsControl(s[k])
  }

  /** The full key of a kerning group: the namespace of its side followed by its name. */
  function GroupKey(side: string, groupName: string): (key: Option<string>)
    ensures key.Some? <==> side == "left" || side == "right"
    ensures side == "left" ==> key.Some? && HasPrefix(key.value, LeftPrefix)
                               && !HasPrefix(key.value, RightPrefix)
                               && key.value[|LeftPrefix|..] == groupName
    ensures side == "right" ==> key.Some? && HasPrefix(key.value, RightPrefix)
                                && !HasPrefix(key.value, LeftPrefix)
                                && key.value[|RightPrefix|..] == groupName
    ensures key.Some? ==> (ValidName(key.value) <==> forall k :: 0 <= k < |groupName| ==> !IsControl(groupName[k]))
  {
    if side == "left" then
      var key := LeftPrefix + groupName;
      assert key[..|LeftPrefix|] == LeftPrefix && key[|LeftPrefix|..] == groupName;
      assert key[|LeftPrefix|-2] != RightPrefix[|LeftPrefix|-2];
      assert forall k :: 0 <= k < |groupName| ==> groupName[k] == key[|LeftPrefix| + k];
      Some(key)
    else if side == "right" then
      var key := RightPrefix + groupName;
      assert key[..|RightPrefix|] == RightPrefix && key[|RightPrefix|..] == groupName;
      assert key[|RightPrefix|-2] != LeftPrefix[|RightPrefix|-2];
      assert forall k :: 0 <= k < |groupName| ==> groupName[k] == key[|RightPrefix| + k];
      Some(key)
    else
      None
  }

  /** Converts every member to a name, stopping at the first invalid one. */
  function ValidateNames(members: seq<string>): (r: Result<seq<string>, KerningError>)
    ensures r.Success? <==> forall i :: 0 <= i < |members| ==> ValidName(members[i])
    ensures r.Success? ==> r.value == members
    ensures r.Failure? ==> exists i :: 0 <= i < |members| && r.error == InvalidName(members[i])
                                       && !ValidName(members[i])
                                       && forall j :: 0 <= j < i ==> ValidName(members[j])
  {
    if members == [] then Success([])
    else if !ValidName(members[0]) then Failure(InvalidName(members[0]))
    else
      match ValidateNames(members[1..])
      case Success(rest) => Success([members[0]] + rest)
      case Failure(e) => Failure(e)
  }

  /** The part of a loaded font the group commands touch: its groups, keyed by
      full group name, and the number of times it has been written back. */
  class Font {
    var groups: map<string, seq<string>>
    var saves: nat

    constructor (groups: map<string, seq<string>>)
      ensures this.groups == groups && saves == 0
    {
      this.groups := groups;
      saves := 0;
    }

    /** Adds (or replaces) the group `groupName` on side `groupSide` and saves the font. */
    method AddKerningGroup(groupName: string, groupSide: string, members: seq<string>)
      returns (result: Outcome<KerningError>)
      modifies this
      ensures GroupKey(groupSide, groupName).None? ==> result == Fail(InvalidSide(groupSide))
      ensures GroupKey(groupSide, groupName).Some? && ValidateNames(members).Failure?
              ==> result == Fail(ValidateNames(members).error)
      ensures GroupKey(groupSide, groupName).Some? && ValidateNames(members).Success?
              && !ValidName(GroupKey(groupSide, groupName).value)
              ==> result == Fail(InvalidName(GroupKey(groupSide, groupName).value))
      ensures result.Pass? <==> GroupKey(groupSide, groupName).Some? && ValidateNames(members).Success?
                                && ValidName(GroupKey(groupSide, groupName).value)
      ensures result.Pass? ==> groups == old(groups)[GroupKey(groupSide, groupName).value := members]
                               && saves == old(saves) + 1
      ensures result.Fail? ==> groups == old(groups) && saves == old(saves)
    {
      if groupSide != "left" && groupSide != "right" {
        return Fail(InvalidSide(groupSide));
      }
      var prefix := if groupSide == "left" then LeftPrefix else RightPrefix;
      var fullGroupName := prefix + groupName;
      var nameMembers := ValidateNames(members);
      if nameMembers.Failure? {
        return Fail(nameMembers.error);
      }
      if !ValidName(fullGroupName) {
        return Fail(InvalidName(fullGroupName));
      }
      groups := groups[fullGroupName := nameMembers.value];
      saves := saves + 1;
      return Pass;
    }

    /** Replaces the members of the existing group `groupName` on side `groupSide` and saves the font. */
    method EditKerningGroup(groupName: string, groupSide: string, members: seq<string>)
      returns (result: Outcome<KerningError>)
      modifies this
      ensures GroupKey(groupSide, groupName).None? ==> result == Fail(InvalidSide(groupSide))
      ensures GroupKey(groupSide, groupName).Some? && !ValidName(GroupKey(groupSide, groupName).value)
              ==> result == Fail(InvalidName(GroupKey(groupSide, groupName).value))
      ensures GroupKey(groupSide, groupName).Some? && ValidName(GroupKey(groupSide, groupName).value)
              && GroupKey(groupSide, groupName).value !in old(groups)
              ==> result == Fail(GroupNotFound(groupName))
      ensures GroupKey(groupSide, groupName).Some? && ValidName(GroupKey(groupSide, groupName).value)
              && GroupKey(groupSide, groupName).value in old(groups) && ValidateNames(members).Failure?
              ==> result == Fail(ValidateNames(members).error)
      ensures result.Pass? <==> GroupKey(groupSide, groupName).Some?
                                && ValidName(GroupKey(groupSide, groupName).value)
                                && GroupKey(groupSide, groupName).value in old(groups)
                                && ValidateNames(members).Success?
      ensures result.Pass? ==> groups == old(groups)[GroupKey(groupSide, groupName).value := members]
                               && groups.Keys == old(groups).Keys
                               && saves == old(saves) + 1
      ensures result.Fail? ==> groups == old(groups) && saves == old(saves)
    {
      if groupSide != "left" && groupSide != "right" {
        return Fail(InvalidSide(groupSide));
      }
      var prefix := if groupSide == "left" then LeftPrefix else RightPrefix;
      var fullGroupName := prefix + groupName;
      if !ValidName(fullGroupName) {
        return Fail(InvalidName(fullGroupName));
      }
      if fullGroupName !in groups {
        return Fail(GroupNotFound(groupName));
      }
      var nameMembers := ValidateNames(members);
      if nameMembers.Failure? {
        return Fail(nameMembers.error);
      }
      groups := groups[fullGroupName := nameMembers.value];
      saves := saves + 1;
      return Pass;
    }
  }

  // ----- Listing groups.plist -----

  /** One listed group: its name without the namespace, and its glyph members. */
  datatype GroupLine = GroupLine(name: string, members: seq<string>)

  /** The listing of groups.plist: first-side groups, then second-side groups. */
  datatype GroupListing = GroupListing(left: seq<GroupLine>, right: seq<GroupLine>)

  /** The string items of an array, in order; items of any other kind are skipped. */
  function StringMembers(items: seq<Value>): (r: seq<string>)
    ensures |r| <= |items|
    ensures forall s :: s in r <==> String(s) in items
  {
    if items == [] then []
    else
      assert items == [items[0]] + items[1..];
      (if items[0].String? then [items[0].str] else []) + StringMembers(items[1..])
  }

  /** Listing a concatenation lists each part in turn: order and repeats are kept. */
  lemma {:induction false} StringMembersAppend(a: seq<Value>, b: seq<Value>)
    ensures StringMembers(a + b) == StringMembers(a) + StringMembers(b)
  {
    if a == [] {
      assert a + b == b;
    } else {
      assert (a + b)[0] == a[0] && (a + b)[1..] == a[1..] + b;
      StringMembersAppend(a[1..], b);
    }
  }

  /** A single item is listed as its string, or not at all. */
  lemma StringMembersSingle(v: Value)
    ensures StringMembers([v]) == if v.String? then [v.str] else []
  {
    assert [v][1..] == [];
  }

  /** The plist array that stores a list of glyph names. */
  function Strings(names: seq<string>): seq<Value>
  {
    seq(|names|, i requires 0 <= i < |names| => String(names[i]))
  }

  /** The groups under namespace `prefix`, in file order; entries that are not arrays are skipped. */
  function GroupLines(groups: seq<(string, Value)>, prefix: string): seq<GroupLine>
  {
    if groups == [] then []
    else
      (if HasPrefix(groups[0].0, prefix) && groups[0].1.Array?
       then [GroupLine(groups[0].0[|prefix|..], StringMembers(groups[0].1.items))]
       else [])
      + GroupLines(groups[1..], prefix)
  }

  function DisplayKerningGroups(groups: seq<(string, Value)>): GroupListing
  {
    GroupListing(GroupLines(groups, LeftPrefix), GroupLines(groups, RightPrefix))
  }

  /** Every listed group comes from an array entry whose key is the namespace followed by the listed name. */
  lemma {:induction false} GroupLinesSound(groups: seq<(string, Value)>, prefix: string)
    ensures forall g :: g in GroupLines(groups, prefix) ==>
              exists i :: 0 <= i < |groups| && groups[i].0 == prefix + g.name && groups[i].1.Array?
                          && g.members == StringMembers(groups[i].1.items)
  {
    if groups != [] {
      GroupLinesSound(groups[1..], prefix);
      forall g | g in GroupLines(groups, prefix)
        ensures exists i :: 0 <= i < |groups| && groups[i].0 == prefix + g.name && groups[i].1.Array?
                            && g.members == StringMembers(groups[i].1.items)
      {
        if g in GroupLines(groups[1..], prefix) {
          var i :| 0 <= i < |groups[1..]| && groups[1..][i].0 == prefix + g.name && groups[1..][i].1.Array?
                   && g.members == StringMembers(groups[1..][i].1.items);
          assert groups[i + 1] == groups[1..][i];
        } else {
          var key := groups[0].0;
          assert key == key[..|prefix|] + key[|prefix|..];
        }
      }
    }
  }

  /** Every array entry whose key carries the namespace is listed, under its stripped name. */
  lemma {:induction false} GroupLinesComplete(groups: seq<(string, Value)>, prefix: string, i: int)
    requires 0 <= i < |groups| && HasPrefix(groups[i].0, prefix) && groups[i].1.Array?
    ensures GroupLine(groups[i].0[|prefix|..], StringMembers(groups[i].1.items)) in GroupLines(groups, prefix)
  {
    if i > 0 {
      GroupLinesComplete(groups[1..], prefix, i - 1);
      assert groups[1..][i - 1] == groups[i];
    }
  }

  /** Names strictly ascending along a listing. */
  predicate NamesAscending(lines: seq<GroupLine>)
  {
    forall i, j :: 0 <= i < j < |lines| ==> LexLess(lines[i].name, lines[j].name)
  }

  lemma TailKeysAscending(groups: seq<(string, Value)>)
    requires groups != [] && KeysAscending(groups)
    ensures KeysAscending(groups[1..])
  {
    forall i, j | 0 <= i < j < |groups[1..]|
      ensures LexLess(groups[1..][i].0, groups[1..][j].0)
    {
      assert groups[1..][i] == groups[i + 1] && groups[1..][j] == groups[j + 1];
    }
  }

  lemma ConsAscending(head: GroupLine, rest: seq<GroupLine>)
    requires NamesAscending(rest)
    requires forall g :: g in rest ==> LexLess(head.name, g.name)
    ensures NamesAscending([head] + rest)
  {
    forall i, j | 0 <= i < j < |[head] + rest|
      ensures LexLess(([head] + rest)[i].name, ([head] + rest)[j].name)
    {
      assert ([head] + rest)[j] == rest[j - 1];
      if i == 0 {
        assert rest[j - 1] in rest;
      } else {
        assert ([head] + rest)[i] == rest[i - 1];
      }
    }
  }

  /** The first entry's name comes before every name listed from the later entries. */
  lemma HeadBeforeRest(groups: seq<(string, Value)>, prefix: string)
    requires groups != [] && KeysAscending(groups) && HasPrefix(groups[0].0, prefix)
    ensures forall g :: g in GroupLines(groups[1..], prefix) ==> LexLess(groups[0].0[|prefix|..], g.name)
  {
    var key := groups[0].0;
    var name := key[|prefix|..];
    assert key == prefix + name;
    GroupLinesSound(groups[1..], prefix);
    forall g | g in GroupLines(groups[1..], prefix) ensures LexLess(name, g.name)
    {
      var m :| 0 <= m < |groups[1..]| && groups[1..][m].0 == prefix + g.name && groups[1..][m].1.Array?
               && g.members == StringMembers(groups[1..][m].1.items);
      assert groups[1..][m] == groups[m + 1];
      assert LexLess(groups[0].0, groups[m + 1].0);
      LexLessCommonPrefix(prefix, name, g.name);
    }
  }

  /** Because the file's keys ascend, so do the listed names: each list is sorted and has no duplicates. */
  lemma {:induction false} GroupLinesAscending(groups: seq<(string, Value)>, prefix: string)
    requires KeysAscending(groups)
    ensures NamesAscending(GroupLines(groups, prefix))
  {
    if groups != [] {
      var rest := GroupLines(groups[1..], prefix);
      TailKeysAscending(groups);
      GroupLinesAscending(groups[1..], prefix);
      if HasPrefix(groups[0].0, prefix) && groups[0].1.Array? {
        var head := GroupLine(groups[0].0[|prefix|..], StringMembers(groups[0].1.items));
        HeadBeforeRest(groups, prefix);
        ConsAscending(head, rest);
        assert GroupLines(groups, prefix) == [head] + rest;
      } else {
        assert GroupLines(groups, prefix) == rest;
      }
    }
  }

  /** No key lies in both namespaces, so no group is listed on both sides for the same entry. */
  lemma NamespacesDisjoint(key: string)
    ensures !(HasPrefix(key, LeftPrefix) && HasPrefix(key, RightPrefix))
  {
  }

  /** Listing a list of names written as a plist array gives the names back. */
  lemma {:induction false} StringMembersOfStrings(names: seq<string>)
    ensures StringMembers(Strings(names)) == names
  {
    if names != [] {
      assert Strings(names)[1..] == Strings(names[1..]);
      StringMembersOfStrings(names[1..]);
    }
  }

  /** groups.plist as a font save writes it for `groups`: one array of names per group, keys ascending. */
  predicate SavedGroups(plist: seq<(string, Value)>, groups: map<string, seq<string>>)
  {
    && KeysAscending(plist)
    && (forall i :: 0 <= i < |plist| ==> plist[i].0 in groups && plist[i].1 == Array(Strings(groups[plist[i].0])))
    && (forall key :: key in groups ==> exists i :: 0 <= i < |plist| && plist[i].0 == key)
  }

  /** A group the font holds under `GroupKey(side, name)` is listed by name with its members on that side, and only there. */
  lemma SavedGroupListed(plist: seq<(string, Value)>, groups: map<string, seq<string>>,
                         side: string, name: string)
    requires SavedGroups(plist, groups)
    requires GroupKey(side, name).Some? && GroupKey(side, name).value in groups
    ensures side == "left" ==> GroupLine(name, groups[LeftPrefix + name]) in DisplayKerningGroups(plist).left
    ensures side == "right" ==> GroupLine(name, groups[RightPrefix + name]) in DisplayKerningGroups(plist).right
    ensures side == "left" ==> forall g :: g in DisplayKerningGroups(plist).right ==>
              RightPrefix + g.name in groups && g.members == groups[RightPrefix + g.name]
    ensures side == "right" ==> forall g :: g in DisplayKerningGroups(plist).left ==>
              LeftPrefix + g.name in groups && g.members == groups[LeftPrefix + g.name]
  {
    var key := GroupKey(side, name).value;
    var i :| 0 <= i < |plist| && plist[i].0 == key;
    StringMembersOfStrings(groups[key]);
    var prefix := if side == "left" then LeftPrefix else RightPrefix;
    GroupLinesComplete(plist, prefix, i);
    NamespacesDisjoint(key);
    SavedLinesHeld(plist, groups, LeftPrefix);
    SavedLinesHeld(plist, groups, RightPrefix);
    forall g | g in DisplayKerningGroups(plist).right ensures HasPrefix(RightPrefix + g.name, RightPrefix)
    {
      assert (RightPrefix + g.name)[..|RightPrefix|] == RightPrefix;
    }
    forall g | g in DisplayKerningGroups(plist).left ensures HasPrefix(LeftPrefix + g.name, LeftPrefix)
    {
      assert (LeftPrefix + g.name)[..|LeftPrefix|] == LeftPrefix;
    }
  }

  /** Every group listed from a saved groups.plist is a group of the font, with its members. */
  lemma SavedLinesHeld(plist: seq<(string, Value)>, groups: map<string, seq<string>>, prefix: string)
    requires SavedGroups(plist, groups)
    ensures forall g :: g in GroupLines(plist, prefix) ==>
              prefix + g.name in groups && g.members == groups[prefix + g.name]
  {
    GroupLinesSound(plist, prefix);
    forall g | g in GroupLines(plist, prefix)
      ensures prefix + g.name in groups && g.members == groups[prefix + g.name]
    {
      var i :| 0 <= i < |plist| && plist[i].0 == prefix + g.name && plist[i].1.Array?
               && g.members == StringMembers(plist[i].1.items);
      StringMembersOfStrings(groups[plist[i].0]);
    }
  }

  // ----- Listing kerning.plist -----

  /** One listed kerning pair: display names of both sides and the kerning value. */
  datatype PairLine = PairLine(first: string, second: string, value: int)

  /** A first-side group key is shown as `@` and its name; any other key as it is. */
  function FirstName(key: string): string
  {
    if HasPrefix(key, LeftPrefix) then "@" + key[|LeftPrefix|..] else key
  }

  /** A second-side group key is shown as `@` and its name; any other key as it is. */
  function SecondName(key: string): string
  {
    if HasPrefix(key, RightPrefix) then "@" + key[|RightPrefix|..] else key
  }

  /** The pairs of one first-side entry, in file order; non-integer values are skipped. */
  function PairLines(firstName: string, pairs: seq<(string, Value)>): seq<PairLine>
  {
    if pairs == [] then []
    else
      (if pairs[0].1.Integer? then [PairLine(firstName, SecondName(pairs[0].0), pairs[0].1.integer)] else [])
      + PairLines(firstName, pairs[1..])
  }

  /** All listed pairs: entries that are not dictionaries are skipped. */
  function KerningLines(kerning: seq<(string, Value)>): seq<PairLine>
  {
    if kerning == [] then []
    else
      (if kerning[0].1.Dictionary? then PairLines(FirstName(kerning[0].0), kerning[0].1.entries) else [])
      + KerningLines(kerning[1..])
  }

  /** Group names are shown with `@` only on their own side of the pair. */
  lemma DisplayNames(name: string)
    ensures FirstName(LeftPrefix + name) == "@" + name
    ensures SecondName(RightPrefix + name) == "@" + name
    ensures FirstName(RightPrefix + name) == RightPrefix + name
    ensures SecondName(LeftPrefix + name) == LeftPrefix + name
  {
    assert (LeftPrefix + name)[..|LeftPrefix|] == LeftPrefix && (LeftPrefix + name)[|LeftPrefix|..] == name;
    assert (RightPrefix + name)[..|RightPrefix|] == RightPrefix && (RightPrefix + name)[|RightPrefix|..] == name;
    NamespacesDisjoint(LeftPrefix + name);
    NamespacesDisjoint(RightPrefix + name);
  }

  /** A line is listed for one entry exactly when that entry holds an integer under the line's second key. */
  lemma {:induction false} PairLinesExact(firstName: string, pairs: seq<(string, Value)>, line: PairLine)
    ensures line in PairLines(firstName, pairs) <==>
              line.first == firstName
              && exists j :: 0 <= j < |pairs| && pairs[j].1 == Integer(line.value) && line.second == SecondName(pairs[j].0)
  {
    if pairs != [] {
      PairLinesExact(firstName, pairs[1..], line);
      if line.first == firstName {
        if exists j :: 0 <= j < |pairs| && pairs[j].1 == Integer(line.value) && line.second == SecondName(pairs[j].0) {
          var j :| 0 <= j < |pairs| && pairs[j].1 == Integer(line.value) && line.second == SecondName(pairs[j].0);
          if j > 0 {
            assert pairs[1..][j - 1] == pairs[j];
          }
        }
        if exists j :: 0 <= j < |pairs[1..]| && pairs[1..][j].1 == Integer(line.value) && line.second == SecondName(pairs[1..][j].0) {
          var j :| 0 <= j < |pairs[1..]| && pairs[1..][j].1 == Integer(line.value) && line.second == SecondName(pairs[1..][j].0);
          assert pairs[j + 1] == pairs[1..][j];
        }
      }
    }
  }

  /** A pair is listed exactly when some dictionary entry of kerning.plist holds an integer for it. */
  lemma {:induction false} KerningLinesExact(kerning: seq<(string, Value)>, line: PairLine)
    ensures line in KerningLines(kerning) <==>
              exists i, j :: 0 <= i < |kerning| && kerning[i].1.Dictionary? && 0 <= j < |kerning[i].1.entries|
                             && kerning[i].1.entries[j].1 == Integer(line.value)
                             && line.first == FirstName(kerning[i].0)
                             && line.second == SecondName(kerning[i].1.entries[j].0)
  {
    if kerning != [] {
      KerningLinesExact(kerning[1..], line);
      if kerning[0].1.Dictionary? {
        PairLinesExact(FirstName(kerning[0].0), kerning[0].1.entries, line);
      }
      if exists i, j :: 0 <= i < |kerning| && kerning[i].1.Dictionary? && 0 <= j < |kerning[i].1.entries|
                        && kerning[i].1.entries[j].1 == Integer(line.value)
                        && line.first == FirstName(kerning[i].0)
                        && line.second == SecondName(kerning[i].1.entries[j].0) {
        var i, j :| 0 <= i < |kerning| && kerning[i].1.Dictionary? && 0 <= j < |kerning[i].1.entries|
                    && kerning[i].1.entries[j].1 == Integer(line.value)
                    && line.first == FirstName(kerning[i].0)
                    && line.second == SecondName(kerning[i].1.entries[j].0);
        if i > 0 {
          assert kerning[1..][i - 1] == kerning[i];
        }
      }
      var tail := kerning[1..];
      if exists i, j :: 0 <= i < |tail| && tail[i].1.Dictionary? && 0 <= j < |tail[i].1.entries|
                        && tail[i].1.entries[j].1 == Integer(line.value)
                        && line.first == FirstName(tail[i].0)
                        && line.second == SecondName(tail[i].1.entries[j].0) {
        var i, j :| 0 <= i < |tail| && tail[i].1.Dictionary? && 0 <= j < |tail[i].1.entries|
                    && tail[i].1.entries[j].1 == Integer(line.value)
                    && line.first == FirstName(tail[i].0)
                    && line.second == SecondName(tail[i].1.entries[j].0);
        assert kerning[i + 1] == tail[i];
      }
    }
  }
}
