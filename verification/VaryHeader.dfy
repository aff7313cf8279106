/** Merging a required name into the `Vary` header (section 12.5.5 of RFC 9110). Case
    folding is an arbitrary function. */
module VaryHeader {
  import opened Text

  const ANY := "*"

  // ----- the members of the header -----

  function TrimAll(pieces: seq<string>): (values: seq<string>)
    ensures |values| == |pieces|
  {
    seq(|pieces|, i requires 0 <= i < |pieces| => TrimSpace(pieces[i]))
  }

  function NonEmpty(values: seq<string>): seq<string>
    decreases |values|
  {
    if values == [] then []
    else
      var value := values[|values| - 1];
      NonEmpty(values[..|values| - 1]) + if value == "" then [] else [value]
  }

  function LineMembers(line: string): seq<string> {
    NonEmpty(TrimAll(Split(line, ',')))
  }

  /** The members of all header lines in order. */
  function MembersOf(lines: seq<string>): seq<string>
    decreases |lines|
  {
    if lines == [] then [] else MembersOf(lines[..|lines| - 1]) + LineMembers(lines[|lines| - 1])
  }

  /** A member as it stands in a header: trimmed, without a comma. */
  predicate Clean(value: string) {
    Trimmed(value) && ',' !in value
  }

  predicate AllClean(values: seq<string>) {
    forall i :: 0 <= i < |values| ==> Clean(values[i])
  }

  lemma {:induction false} NonEmptyClean(values: seq<string>)
    requires forall i :: 0 <= i < |values| ==> values[i] == "" || Clean(values[i])
    ensures AllClean(NonEmpty(values))
    decreases |values|
  {
    if values != [] {
      NonEmptyClean(values[..|values| - 1]);
    }
  }

  lemma LineClean(line: string)
    ensures AllClean(LineMembers(line))
  {
    var pieces := Split(line, ',');
    JoinSplit(line, ',');
    forall i | 0 <= i < |pieces| ensures TrimAll(pieces)[i] == "" || Clean(TrimAll(pieces)[i]) {
      TrimSpaceTrims(pieces[i]);
    }
    NonEmptyClean(TrimAll(pieces));
  }

  lemma {:induction false} MembersClean(lines: seq<string>)
    ensures AllClean(MembersOf(lines))
    decreases |lines|
  {
    if lines != [] {
      MembersClean(lines[..|lines| - 1]);
      LineClean(lines[|lines| - 1]);
    }
  }

  // ----- what merging means -----

  /** The names of some members, without regard to case. */
  function Names(members: seq<string>, fold: string -> string): set<string>
    decreases |members|
  {
    if members == [] then {} else Names(members[..|members| - 1], fold) + {fold(members[|members| - 1])}
  }

  lemma {:induction false} NamesExactly(members: seq<string>, fold: string -> string, name: string)
    ensures name in Names(members, fold) <==> exists i :: 0 <= i < |members| && fold(members[i]) == name
    decreases |members|
  {
    if members != [] {
      NamesExactly(members[..|members| - 1], fold, name);
    }
  }

  lemma NamesSnoc(members: seq<string>, value: string, fold: string -> string)
    ensures Names(members + [value], fold) == Names(members, fold) + {fold(value)}
  {
    assert (members + [value])[..|members|] == members;
  }

  function Spelled(value: string, required: string, fold: string -> string): string {
    if fold(value) == fold(required) then required else value
  }

  /** Each member that is the first of its name, in order. */
  function Firsts(members: seq<string>, required: string, fold: string -> string): seq<string>
    decreases |members|
  {
    if members == [] then []
    else
      var front, value := members[..|members| - 1], members[|members| - 1];
      Firsts(front, required, fold)
      + if fold(value) in Names(front, fold) then [] else [Spelled(value, required, fold)]
  }

  function Merged(members: seq<string>, required: string, fold: string -> string): seq<string> {
    Firsts(members, required, fold) + if fold(required) in Names(members, fold) then [] else [required]
  }

  /** No two values differ only in case. */
  predicate DistinctNames(values: seq<string>, fold: string -> string) {
    forall i, j :: 0 <= i < j < |values| ==> fold(values[i]) != fold(values[j])
  }

  lemma DistinctSnoc(values: seq<string>, value: string, fold: string -> string)
    requires DistinctNames(values, fold) && fold(value) !in Names(values, fold)
    ensures DistinctNames(values + [value], fold)
  {
    NamesExactly(values, fold, fold(value));
  }

  lemma {:induction false} FirstsNames(members: seq<string>, required: string, fold: string -> string)
    ensures DistinctNames(Firsts(members, required, fold), fold)
    ensures Names(Firsts(members, required, fold), fold) == Names(members, fold)
    decreases |members|
  {
    if members != [] {
      var front, value := members[..|members| - 1], members[|members| - 1];
      FirstsNames(front, required, fold);
      if fold(value) in Names(front, fold) {
        assert Firsts(members, required, fold) == Firsts(front, required, fold);
        assert Names(members, fold) == Names(front, fold);
      } else {
        DistinctSnoc(Firsts(front, required, fold), Spelled(value, required, fold), fold);
        NamesSnoc(Firsts(front, required, fold), Spelled(value, required, fold), fold);
      }
    }
  }

  lemma {:induction false} FirstsSpelling(members: seq<string>, required: string, fold: string -> string, v: string)
    requires v in Firsts(members, required, fold)
    ensures if fold(v) == fold(required) then v == required else v in members
    decreases |members|
  {
    var front := members[..|members| - 1];
    if v in Firsts(front, required, fold) {
      FirstsSpelling(front, required, fold, v);
    }
  }

  /** The merged names are the names of the members and the required one, each once. */
  lemma MergedNames(members: seq<string>, required: string, fold: string -> string)
    ensures DistinctNames(Merged(members, required, fold), fold)
    ensures Names(Merged(members, required, fold), fold) == Names(members, fold) + {fold(required)}
  {
    FirstsNames(members, required, fold);
    var values := Firsts(members, required, fold);
    if fold(required) in Names(members, fold) {
      assert Merged(members, required, fold) == values;
      assert Names(members, fold) + {fold(required)} == Names(members, fold);
    } else {
      DistinctSnoc(values, required, fold);
      NamesSnoc(values, required, fold);
    }
  }

  /** The required name stands in its given spelling, every other in the spelling of a member. */
  lemma MergedSpelling(members: seq<string>, required: string, fold: string -> string, v: string)
    requires v in Merged(members, required, fold)
    ensures if fold(v) == fold(required) then v == required else v in members
  {
    if v in Firsts(members, required, fold) {
      FirstsSpelling(members, required, fold, v);
    }
  }

  lemma MergedNotEmpty(members: seq<string>, required: string, fold: string -> string)
    ensures Merged(members, required, fold) != []
  {
    MergedNames(members, required, fold);
    assert Names([], fold) == {};
    assert fold(required) in Names(Merged(members, required, fold), fold);
  }

  /** Every member that is the first of its name stands right behind the values of the members
      before it, in its own spelling unless it is the required name; a required name that
      no member has comes last. */
  lemma MergedOrder(members: seq<string>, required: string, fold: string -> string, i: nat)
    requires i < |members| && fold(members[i]) !in Names(members[..i], fold)
    ensures var value := if fold(members[i]) == fold(required) then required else members[i];
            Firsts(members[..i], required, fold) + [value] <= Merged(members, required, fold)
    ensures fold(required) !in Names(members, fold) ==>
              Merged(members, required, fold)[|Merged(members, required, fold)| - 1] == required
  {
    FirstOccurrenceOrder(members, required, fold, i);
  }

  lemma {:induction false} FirstOccurrenceOrder(members: seq<string>, required: string, fold: string -> string, i: nat)
    requires i < |members| && fold(members[i]) !in Names(members[..i], fold)
    ensures var before := Firsts(members[..i], required, fold);
            var values := Firsts(members, required, fold);
            && before + [Spelled(members[i], required, fold)] <= values
    decreases |members|
  {
    var front := members[..|members| - 1];
    if i < |front| {
      assert front[..i] == members[..i];
      FirstOccurrenceOrder(front, required, fold, i);
    }
  }

  /** Values that are already distinct and rightly spelled are left as they are. */
  lemma {:induction false} FirstsOfDistinct(values: seq<string>, required: string, fold: string -> string)
    requires DistinctNames(values, fold)
    requires forall i :: 0 <= i < |values| && fold(values[i]) == fold(required) ==> values[i] == required
    ensures Firsts(values, required, fold) == values
    decreases |values|
  {
    if values != [] {
      var front, value := values[..|values| - 1], values[|values| - 1];
      FirstsOfDistinct(front, required, fold);
      NamesExactly(front, fold, fold(value));
      assert values == front + [value];
    }
  }

  lemma MergedTwice(members: seq<string>, required: string, fold: string -> string)
    ensures Merged(Merged(members, required, fold), required, fold) == Merged(members, required, fold)
  {
    MergedNames(members, required, fold);
    var values := Merged(members, required, fold);
    forall i | 0 <= i < |values| && fold(values[i]) == fold(required) ensures values[i] == required {
      MergedSpelling(members, required, fold, values[i]);
    }
    FirstsOfDistinct(values, required, fold);
    assert values + [] == values;
  }

  // ----- the method -----

  function SetTo(members: seq<string>, required: string, fold: string -> string): string {
    MergedNotEmpty(members, required, fold);
    if ANY in members then ANY else Join(Merged(members, required, fold), ", ")
  }

  /** What the loop keeps: the members so far, none of them `*`, and their values. */
  ghost predicate Collected(
    members: seq<string>, seen: set<string>, values: seq<string>, required: string, fold: string -> string
  ) {
    && ANY !in members
    && seen == Names(members, fold)
    && values == Firsts(members, required, fold)
  }

  lemma Collect(
    members: seq<string>, seen: set<string>, values: seq<string>, value: string, required: string, fold: string -> string
  )
    requires Collected(members, seen, values, required, fold) && value != ANY
    ensures var more := if fold(value) in seen then [] else [Spelled(value, required, fold)];
            Collected(members + [value], seen + {fold(value)}, values + more, required, fold)
  {
    NamesSnoc(members, value, fold);
    assert (members + [value])[..|members|] == members;
  }

  /** A member that is not `*`: kept if it is the first of its name. */
  method MergeMember(
    member: string, required: string, fold: string -> string, ghost members: seq<string>,
    seen0: set<string>, values0: seq<string>
  )
    returns (seen: set<string>, values: seq<string>)
    requires Collected(members, seen0, values0, required, fold) && member != ANY
    ensures Collected(members + [member], seen, values, required, fold)
  {
    Collect(members, seen0, values0, member, required, fold);
    var value := member;
    var key := fold(value);
    if key in seen0 {
      assert seen0 + {key} == seen0 && values0 + [] == values0;
      return seen0, values0;
    }
    if key == fold(required) {
      value := required;
    }
    return seen0 + {key}, values0 + [value];
  }

  lemma AppendMember(members: seq<string>, values: seq<string>, p: nat)
    requires p < |values|
    ensures var all := members + NonEmpty(values[..p]);
            members + NonEmpty(values[..p + 1]) == if values[p] == "" then all else all + [values[p]]
  {
    NonEmptySnoc(values, p);
  }

  /** One header line. */
  method MergeLine(
    pieces: seq<string>, required: string, fold: string -> string, ghost members: seq<string>,
    seen0: set<string>, values0: seq<string>
  )
    returns (any: bool, seen: set<string>, values: seq<string>)
    requires Collected(members, seen0, values0, required, fold)
    ensures any <==> ANY in NonEmpty(TrimAll(pieces))
    ensures !any ==> Collected(members + NonEmpty(TrimAll(pieces)), seen, values, required, fold)
  {
    any, seen, values := false, seen0, values0;
    ghost var trimmed := TrimAll(pieces);
    ghost var all := members;
    for p := 0 to |pieces|
      invariant all == members + NonEmpty(trimmed[..p])
      invariant Collected(all, seen, values, required, fold)
    {
      var value := TrimSpace(pieces[p]);
      assert value == trimmed[p];
      AppendMember(members, trimmed, p);
      if value == "" {
        continue;
      }
      if value == ANY {
        AnyInPieces(trimmed, p);
        any := true;
        return;
      }
      seen, values := MergeMember(value, required, fold, all, seen, values);
      all := all + [value];
    }
    assert trimmed[..|pieces|] == trimmed;
  }

  /** Walks the pieces of every line once, and stops at a `*`. */
  method MergeVary(lines: seq<string>, required: string, fold: string -> string) returns (header: string)
    ensures header == SetTo(MembersOf(lines), required, fold)
  {
    var seen: set<string> := {};
    var values: seq<string> := [];
    for l := 0 to |lines|
      invariant Collected(MembersOf(lines[..l]), seen, values, required, fold)
    {
      var pieces := Split(lines[l], ',');
      MembersSnoc(lines, l);
      var any;
      any, seen, values := MergeLine(pieces, required, fold, MembersOf(lines[..l]), seen, values);
      if any {
        AnyOnLine(lines, l);
        return ANY;
      }
    }
    assert lines[..|lines|] == lines;
    MergedNotEmpty(MembersOf(lines), required, fold);
    if fold(required) !in seen {
      values := values + [required];
    } else {
      assert values + [] == values;
    }
    header := Join(values, ", ");
  }

  lemma MembersSnoc(lines: seq<string>, l: nat)
    requires l < |lines|
    ensures MembersOf(lines[..l + 1]) == MembersOf(lines[..l]) + LineMembers(lines[l])
  {
    assert lines[..l + 1][..l] == lines[..l];
  }

  lemma AnyOnLine(lines: seq<string>, l: nat)
    requires l < |lines| && ANY in LineMembers(lines[l])
    ensures ANY in MembersOf(lines)
  {
    MembersSnoc(lines, l);
    MembersPrefix(lines, l + 1);
    InPrefix(ANY, MembersOf(lines[..l]), LineMembers(lines[l]), MembersOf(lines));
  }

  lemma InPrefix(x: string, front: seq<string>, middle: seq<string>, all: seq<string>)
    requires x in middle && front + middle <= all
    ensures x in all
  {
    var i :| 0 <= i < |middle| && middle[i] == x;
    assert all[|front| + i] == (front + middle)[|front| + i] == x;
  }

  lemma AnyInPieces(values: seq<string>, p: nat)
    requires p < |values| && values[p] == ANY
    ensures ANY in NonEmpty(values)
  {
    NonEmptySnoc(values, p);
    NonEmptyPrefix(values, p + 1);
    InPrefix(ANY, NonEmpty(values[..p]), [ANY], NonEmpty(values));
  }

  lemma NonEmptySnoc(values: seq<string>, p: nat)
    requires p < |values|
    ensures NonEmpty(values[..p + 1]) == NonEmpty(values[..p]) + if values[p] == "" then [] else [values[p]]
  {
    assert values[..p + 1][..p] == values[..p];
  }

  lemma {:induction false} NonEmptyPrefix(values: seq<string>, p: nat)
    requires p <= |values|
    ensures NonEmpty(values[..p]) <= NonEmpty(values)
    decreases |values|
  {
    if p < |values| {
      NonEmptyPrefix(values[..|values| - 1], p);
      assert values[..|values| - 1][..p] == values[..p];
    } else {
      assert values[..p] == values;
    }
  }

  lemma {:induction false} MembersPrefix(lines: seq<string>, l: nat)
    requires l <= |lines|
    ensures MembersOf(lines[..l]) <= MembersOf(lines)
    decreases |lines|
  {
    if l < |lines| {
      MembersPrefix(lines[..|lines| - 1], l);
      assert lines[..|lines| - 1][..l] == lines[..l];
    } else {
      assert lines[..l] == lines;
    }
  }

  // ----- reading back what was set -----

  /** The pieces of the joined header: all but the first begin with a space. */
  function Spaced(values: seq<string>): (pieces: seq<string>)
    ensures |pieces| == |values|
    ensures forall i :: 0 <= i < |values| ==> pieces[i] == if i == 0 then values[i] else " " + values[i]
  {
    seq(|values|, i requires 0 <= i < |values| => if i == 0 then values[i] else " " + values[i])
  }

  lemma {:induction false} JoinShifted(values: seq<string>, first: string)
    requires values != []
    ensures Join([first] + Behind(values[1..]), ",") == first + Tail(values)
    decreases |values|
  {
    var pieces := [first] + Behind(values[1..]);
    if |values| > 1 {
      JoinShifted(values[1..], " " + values[1]);
      assert pieces[1..] == [" " + values[1]] + Behind(values[1..][1..]);
      assert Join(pieces, ",") == first + "," + Join(pieces[1..], ",");
      assert first + "," + (" " + values[1] + Tail(values[1..])) == first + (", " + values[1] + Tail(values[1..]));
    }
  }

  /** What follows the first value in the joined header. */
  function Tail(values: seq<string>): string
    requires values != []
    decreases |values|
  {
    if |values| == 1 then "" else ", " + values[1] + Tail(values[1..])
  }

  lemma {:induction false} JoinTail(values: seq<string>)
    requires values != []
    ensures Join(values, ", ") == values[0] + Tail(values)
    decreases |values|
  {
    if |values| > 1 {
      JoinTail(values[1..]);
    }
  }

  function Behind(values: seq<string>): (pieces: seq<string>)
    ensures |pieces| == |values| && forall i :: 0 <= i < |values| ==> pieces[i] == " " + values[i]
    decreases |values|
  {
    if values == [] then [] else [" " + values[0]] + Behind(values[1..])
  }

  lemma TrimSpaced(values: seq<string>)
    requires AllClean(values)
    ensures TrimAll(Spaced(values)) == values
  {
    forall i | 0 <= i < |values| ensures TrimAll(Spaced(values))[i] == values[i] {
      TrimSpaceOfTrimmed(values[i]);
    }
  }

  lemma {:induction false} NonEmptyOfClean(values: seq<string>)
    requires AllClean(values)
    ensures NonEmpty(values) == values
    decreases |values|
  {
    if values != [] {
      NonEmptyOfClean(values[..|values| - 1]);
      assert values == values[..|values| - 1] + [values[|values| - 1]];
    }
  }

  /** The header line that joins clean values has exactly these members. */
  lemma JoinedMembers(values: seq<string>)
    requires values != [] && AllClean(values)
    ensures MembersOf([Join(values, ", ")]) == values
  {
    var pieces := Spaced(values);
    assert pieces == [values[0]] + Behind(values[1..]);
    JoinTail(values);
    JoinShifted(values, values[0]);
    SplitJoin(pieces, ',');
    TrimSpaced(values);
    NonEmptyOfClean(values);
    MembersSnoc([Join(values, ", ")], 0);
  }

  /** What a caller passes: a clean field name other than `*`. */
  predicate FieldName(required: string) {
    Clean(required) && required != ANY
  }

  lemma MergedClean(lines: seq<string>, required: string, fold: string -> string)
    requires FieldName(required) && ANY !in MembersOf(lines)
    ensures AllClean(Merged(MembersOf(lines), required, fold)) && ANY !in Merged(MembersOf(lines), required, fold)
    ensures Merged(MembersOf(lines), required, fold) != []
  {
    MembersClean(lines);
    MergedNotEmpty(MembersOf(lines), required, fold);
    var values := Merged(MembersOf(lines), required, fold);
    forall i | 0 <= i < |values| ensures Clean(values[i]) && values[i] != ANY {
      MergedSpelling(MembersOf(lines), required, fold, values[i]);
    }
  }

  /** The header becomes `*` exactly when some member was `*`; otherwise its members are
      the merged ones. */
  lemma AnyExactly(lines: seq<string>, required: string, fold: string -> string)
    requires FieldName(required)
    ensures var header := SetTo(MembersOf(lines), required, fold);
            && (header == ANY <==> ANY in MembersOf(lines))
            && (header != ANY ==> MembersOf([header]) == Merged(MembersOf(lines), required, fold))
  {
    JoinedMembers([ANY]);
    if ANY !in MembersOf(lines) {
      MergedClean(lines, required, fold);
      JoinedMembers(Merged(MembersOf(lines), required, fold));
    }
  }

  /** Merging the result again changes nothing. */
  lemma MergeAgain(lines: seq<string>, required: string, fold: string -> string)
    requires FieldName(required)
    ensures var header := SetTo(MembersOf(lines), required, fold);
            SetTo(MembersOf([header]), required, fold) == header
  {
    AnyExactly(lines, required, fold);
    JoinedMembers([ANY]);
    MergedTwice(MembersOf(lines), required, fold);
    if ANY !in MembersOf(lines) {
      MergedClean(lines, required, fold);
    }
  }
}
