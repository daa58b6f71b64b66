/**
 * Post-processing of a candidate list's committee on its detail page: the
 * president lookup, the grouping of members by governing body ("órgão") and the
 * rule that places a separator between members of one body.
 */
module AEDetails {
  import opened Wrappers
  import opened Seqs
  import opened Text

  /** A row of the `os_onze` table: one committee member of a candidate list. */
  datatype Member = Member(id: int, ae_id: int, nome: string, cargo: string, orgao: string, foto_url: Option<string>)

  /** One governing body with its members, in the order the page shows them. */
  datatype OrgaoGroup = OrgaoGroup(orgao: string, membros: seq<Member>)

  const Direcao: string := "DIREÇÃO"
  const Presidente: string := "presidente"

  // ---------------------------------------------------------------------------
  // President lookup

  /** The row the page takes for the president: role "presidente" in any letter case, in DIREÇÃO. */
  predicate IsPresidentRow(m: Member) {
    LowerAscii(m.cargo) == Presidente && m.orgao == Direcao
  }

  /** Row `i` is the first president row of `ms`. */
  ghost predicate FirstPresidentAt(ms: seq<Member>, i: int) {
    0 <= i < |ms| && IsPresidentRow(ms[i]) && forall k :: 0 <= k < i ==> !IsPresidentRow(ms[k])
  }

  /** Index of the first president row, as `Array.prototype.find` scans. */
  function FindPresident(ms: seq<Member>): (r: Option<nat>)
    ensures r.Some? ==> FirstPresidentAt(ms, r.value)
    ensures r.None? ==> forall k :: 0 <= k < |ms| ==> !IsPresidentRow(ms[k])
  {
    if ms == [] then None
    else if IsPresidentRow(ms[0]) then Some(0)
    else match FindPresident(ms[1..])
      case None => None
      case Some(i) => Some(i + 1)
  }

  /**
   * The president's name: the `nome` of the first president row, and none when
   * there is no such row or its name is empty (`presidenteMembro?.nome || null`).
   */
  function President(ms: seq<Member>): (p: Option<string>)
    ensures p.Some? <==> exists i :: FirstPresidentAt(ms, i) && ms[i].nome != ""
    ensures forall i :: FirstPresidentAt(ms, i) ==> p == (if ms[i].nome == "" then None else Some(ms[i].nome))
  {
    match FindPresident(ms)
    case None => None
    case Some(i) => if ms[i].nome == "" then None else Some(ms[i].nome)
  }

  // ---------------------------------------------------------------------------
  // Grouping by órgão: the specification

  /** The `orgao` column of the rows. */
  function Orgaos(ms: seq<Member>): (os: seq<string>)
    ensures |os| == |ms| && forall i :: 0 <= i < |ms| ==> os[i] == ms[i].orgao
  {
    seq(|ms|, i requires 0 <= i < |ms| => ms[i].orgao)
  }

  /** The rows whose `orgao` is `o`, in input order. */
  function MembersOf(ms: seq<Member>, o: string): seq<Member> {
    if ms == [] then []
    else MembersOf(ms[..|ms| - 1], o) + (if ms[|ms| - 1].orgao == o then [ms[|ms| - 1]] else [])
  }

  /** The rows of one `orgao` are input rows of that `orgao`, as many as it occurs. */
  lemma {:induction false} MembersOfSpec(ms: seq<Member>, o: string)
    ensures forall m :: m in MembersOf(ms, o) ==> m in ms && m.orgao == o
    ensures |MembersOf(ms, o)| == Count(Orgaos(ms), o)
  {
    if ms != [] {
      var init, m := ms[..|ms| - 1], ms[|ms| - 1];
      MembersOfSpec(init, o);
      assert ms == init + [m];
      OrgaosSnoc(init, m);
      CountSnoc(Orgaos(init), m.orgao, o);
    }
  }

  /**
   * The groups the page should show: one per distinct `orgao`, in order of first
   * appearance, each holding the rows of that `orgao` in input order.
   */
  function Grouping(ms: seq<Member>): (gs: seq<OrgaoGroup>)
    ensures |gs| == |Distinct(Orgaos(ms))|
    ensures forall k :: 0 <= k < |gs| ==> gs[k].orgao == Distinct(Orgaos(ms))[k]
  {
    var keys := Distinct(Orgaos(ms));
    seq(|keys|, k requires 0 <= k < |keys| => OrgaoGroup(keys[k], MembersOf(ms, keys[k])))
  }

  /** Group keys are pairwise distinct, no group is empty, and a group holds only rows of its `orgao`. */
  lemma GroupingShape(ms: seq<Member>)
    ensures forall a, b :: 0 <= a < b < |Grouping(ms)| ==> Grouping(ms)[a].orgao != Grouping(ms)[b].orgao
    ensures forall k :: 0 <= k < |Grouping(ms)| ==> Grouping(ms)[k].membros != []
    ensures forall k, m :: 0 <= k < |Grouping(ms)| && m in Grouping(ms)[k].membros ==> m.orgao == Grouping(ms)[k].orgao
  {
    var G, keys := Grouping(ms), Distinct(Orgaos(ms));
    DistinctUnique(Orgaos(ms));
    forall k | 0 <= k < |G|
      ensures G[k].membros != [] && forall m :: m in G[k].membros ==> m.orgao == G[k].orgao
    {
      MembersOfSpec(ms, keys[k]);
      DistinctHas(Orgaos(ms), keys[k]);
    }
  }

  /** All members of all groups, group after group. */
  function Flatten(gs: seq<OrgaoGroup>): seq<Member> {
    if gs == [] then [] else gs[0].membros + Flatten(gs[1..])
  }

  // ---------------------------------------------------------------------------
  // Grouping by órgão: the reduce of the page

  /** Position of the first group for `o`, or -1 (`acc.find(g => g.orgao === o)`). */
  method FindGroup(groups: seq<OrgaoGroup>, o: string) returns (j: int)
    ensures -1 <= j < |groups|
    ensures j == -1 <==> forall k :: 0 <= k < |groups| ==> groups[k].orgao != o
    ensures j >= 0 ==> groups[j].orgao == o && forall k :: 0 <= k < j ==> groups[k].orgao != o
  {
    j := 0;
    while j < |groups|
      invariant 0 <= j <= |groups|
      invariant forall k :: 0 <= k < j ==> groups[k].orgao != o
    {
      if groups[j].orgao == o {
        return;
      }
      j := j + 1;
    }
    j := -1;
  }

  /**
   * The page's `reduce`: each row is pushed onto the group of its `orgao`, or opens
   * a new group at the end. The result is exactly `Grouping(ms)`.
   */
  method GroupByOrgao(ms: seq<Member>) returns (groups: seq<OrgaoGroup>)
    ensures groups == Grouping(ms)
  {
    groups := [];
    var i := 0;
    while i < |ms|
      invariant 0 <= i <= |ms|
      invariant groups == Grouping(ms[..i])
    {
      var m := ms[i];
      assert ms[..i + 1] == ms[..i] + [m];
      var j := FindGroup(groups, m.orgao);
      if j >= 0 {
        GroupingSnocExisting(ms[..i], m, j);
        groups := groups[j := OrgaoGroup(groups[j].orgao, groups[j].membros + [m])];
      } else {
        GroupingSnocNew(ms[..i], m);
        groups := groups + [OrgaoGroup(m.orgao, [m])];
      }
      i := i + 1;
    }
    assert ms[..|ms|] == ms;
  }

  // ---------------------------------------------------------------------------
  // Properties of the grouping

  lemma OrgaosSnoc(ms: seq<Member>, m: Member)
    ensures Orgaos(ms + [m]) == Orgaos(ms) + [m.orgao]
  {
  }

  lemma MembersOfSnoc(ms: seq<Member>, m: Member, o: string)
    ensures MembersOf(ms + [m], o) == MembersOf(ms, o) + (if m.orgao == o then [m] else [])
  {
    assert (ms + [m])[..|ms|] == ms;
  }

  lemma MembersOfAbsent(ms: seq<Member>, o: string)
    requires o !in Orgaos(ms)
    ensures MembersOf(ms, o) == []
  {
  }

  /** One more row keeps every existing group's key and extends that group exactly when the row belongs to it. */
  lemma GroupingSnocAt(ms: seq<Member>, m: Member, k: nat)
    requires k < |Grouping(ms)|
    ensures k < |Grouping(ms + [m])|
    ensures Grouping(ms + [m])[k]
         == OrgaoGroup(Grouping(ms)[k].orgao, Grouping(ms)[k].membros + (if m.orgao == Grouping(ms)[k].orgao then [m] else []))
  {
    var keys := Distinct(Orgaos(ms));
    OrgaosSnoc(ms, m);
    DistinctSnoc(Orgaos(ms), m.orgao);
    var keys' := Distinct(Orgaos(ms + [m]));
    assert keys'[k] == keys[k];
    assert Grouping(ms + [m])[k] == OrgaoGroup(keys[k], MembersOf(ms + [m], keys[k]));
    assert Grouping(ms)[k] == OrgaoGroup(keys[k], MembersOf(ms, keys[k]));
    MembersOfSnoc(ms, m, keys[k]);
  }

  /** A row whose `orgao` already has a group is appended to that group; nothing else changes. */
  lemma GroupingSnocExisting(ms: seq<Member>, m: Member, j: nat)
    requires j < |Grouping(ms)| && Grouping(ms)[j].orgao == m.orgao
    ensures Grouping(ms + [m]) == Grouping(ms)[j := OrgaoGroup(m.orgao, Grouping(ms)[j].membros + [m])]
  {
    var G, G' := Grouping(ms), Grouping(ms + [m]);
    var keys := Distinct(Orgaos(ms));
    OrgaosSnoc(ms, m);
    DistinctSnoc(Orgaos(ms), m.orgao);
    assert keys[j] == m.orgao && m.orgao in keys;
    assert |G'| == |G|;
    DistinctUnique(Orgaos(ms));
    forall k | 0 <= k < |G| ensures G'[k] == G[j := OrgaoGroup(m.orgao, G[j].membros + [m])][k] {
      GroupingSnocAt(ms, m, k);
    }
  }

  /** A row with a new `orgao` opens a group of its own at the end. */
  lemma GroupingSnocNew(ms: seq<Member>, m: Member)
    requires forall j :: 0 <= j < |Grouping(ms)| ==> Grouping(ms)[j].orgao != m.orgao
    ensures Grouping(ms + [m]) == Grouping(ms) + [OrgaoGroup(m.orgao, [m])]
  {
    var G, G' := Grouping(ms), Grouping(ms + [m]);
    var keys := Distinct(Orgaos(ms));
    OrgaosSnoc(ms, m);
    DistinctSnoc(Orgaos(ms), m.orgao);
    assert m.orgao !in keys;
    assert Distinct(Orgaos(ms + [m])) == keys + [m.orgao];
    assert |G'| == |G| + 1;
    forall k | 0 <= k < |G| ensures G'[k] == G[k] {
      GroupingSnocAt(ms, m, k);
    }
    DistinctHas(Orgaos(ms), m.orgao);
    MembersOfAbsent(ms, m.orgao);
    MembersOfSnoc(ms, m, m.orgao);
    assert MembersOf(ms + [m], m.orgao) == [m];
    assert G'[|G|] == OrgaoGroup(m.orgao, [m]);
  }

  lemma {:induction false} FlattenSnoc(gs: seq<OrgaoGroup>, g: OrgaoGroup)
    ensures Flatten(gs + [g]) == Flatten(gs) + g.membros
  {
    if gs != [] {
      assert (gs + [g])[1..] == gs[1..] + [g];
      FlattenSnoc(gs[1..], g);
    }
  }

  lemma {:induction false} FlattenPush(gs: seq<OrgaoGroup>, j: nat, m: Member)
    requires j < |gs|
    ensures multiset(Flatten(gs[j := OrgaoGroup(gs[j].orgao, gs[j].membros + [m])]))
         == multiset(Flatten(gs)) + multiset{m}
  {
    var gs' := gs[j := OrgaoGroup(gs[j].orgao, gs[j].membros + [m])];
    if j > 0 {
      assert gs'[1..] == gs[1..][j - 1 := OrgaoGroup(gs[j].orgao, gs[j].membros + [m])];
      FlattenPush(gs[1..], j - 1, m);
    } else {
      assert gs'[1..] == gs[1..];
    }
  }

  /** Grouping loses and invents no row: the groups together are a permutation of the input. */
  lemma {:induction false} GroupingIsPermutation(ms: seq<Member>)
    ensures multiset(Flatten(Grouping(ms))) == multiset(ms)
    ensures |Flatten(Grouping(ms))| == |ms|
  {
    if ms != [] {
      var init, m := ms[..|ms| - 1], ms[|ms| - 1];
      assert ms == init + [m];
      GroupingIsPermutation(init);
      var G := Grouping(init);
      if j :| 0 <= j < |G| && G[j].orgao == m.orgao {
        GroupingSnocExisting(init, m, j);
        FlattenPush(G, j, m);
      } else {
        GroupingSnocNew(init, m);
        FlattenSnoc(G, OrgaoGroup(m.orgao, [m]));
      }
    }
    assert |multiset(Flatten(Grouping(ms)))| == |multiset(ms)|;
  }

  lemma {:induction false} MembersOfContains(ms: seq<Member>, i: nat)
    requires i < |ms|
    ensures ms[i] in MembersOf(ms, ms[i].orgao)
  {
    var init := ms[..|ms| - 1];
    if i < |ms| - 1 {
      assert ms[i] == init[i];
      MembersOfContains(init, i);
    }
  }

  /** Every row ends up in exactly one group: the group of its own `orgao`. */
  lemma MemberInExactlyOneGroup(ms: seq<Member>, i: nat)
    requires i < |ms|
    ensures exists k :: 0 <= k < |Grouping(ms)| && Grouping(ms)[k].orgao == ms[i].orgao
    ensures forall k :: 0 <= k < |Grouping(ms)| ==>
              (ms[i] in Grouping(ms)[k].membros <==> Grouping(ms)[k].orgao == ms[i].orgao)
  {
    var G := Grouping(ms);
    assert Orgaos(ms)[i] == ms[i].orgao;
    var keys := Distinct(Orgaos(ms));
    DistinctHas(Orgaos(ms), ms[i].orgao);
    var k :| 0 <= k < |keys| && keys[k] == ms[i].orgao;
    assert G[k].orgao == ms[i].orgao;
    MembersOfContains(ms, i);
    forall k' | 0 <= k' < |G| && ms[i] in G[k'].membros ensures G[k'].orgao == ms[i].orgao {
      MembersOfSpec(ms, keys[k']);
    }
  }

  /**
   * Groups come in order of first appearance of their `orgao`: an earlier group's
   * first member comes earlier in the input.
   */
  lemma GroupsInFirstAppearanceOrder(ms: seq<Member>, a: nat, b: nat)
    requires a < b < |Grouping(ms)|
    ensures Grouping(ms)[a].orgao in Orgaos(ms) && Grouping(ms)[b].orgao in Orgaos(ms)
    ensures FirstIndex(Orgaos(ms), Grouping(ms)[a].orgao) < FirstIndex(Orgaos(ms), Grouping(ms)[b].orgao)
  {
    DistinctFirstAppearanceOrder(Orgaos(ms), a, b);
  }

  /** `sub` is `s` with some elements left out, the rest kept in order. */
  ghost predicate IsSubsequence(sub: seq<Member>, s: seq<Member>)
    decreases |s|
  {
    if s == [] then sub == []
    else
      || (sub != [] && sub[|sub| - 1] == s[|s| - 1] && IsSubsequence(sub[..|sub| - 1], s[..|s| - 1]))
      || IsSubsequence(sub, s[..|s| - 1])
  }

  /** Inside a group, members keep their input order. */
  lemma {:induction false} GroupKeepsInputOrder(ms: seq<Member>, o: string)
    ensures IsSubsequence(MembersOf(ms, o), ms)
  {
    if ms != [] {
      var init, m := ms[..|ms| - 1], ms[|ms| - 1];
      GroupKeepsInputOrder(init, o);
      assert ms == init + [m];
      MembersOfSnoc(init, m, o);
      var r := MembersOf(ms, o);
      if m.orgao == o {
        assert r[..|r| - 1] == MembersOf(init, o);
        assert r != [] && r[|r| - 1] == ms[|ms| - 1];
        assert IsSubsequence(r[..|r| - 1], ms[..|ms| - 1]);
      } else {
        assert r == MembersOf(init, o);
        assert IsSubsequence(r, ms[..|ms| - 1]);
      }
    }
  }

  /**
   * When the rows arrive sorted on `orgao` (the query orders by `orgao`, which puts
   * equal values next to each other), the groups read back in sequence are the input.
   */
  lemma {:induction false} SortedInputRoundTrips(ms: seq<Member>)
    requires Clustered(Orgaos(ms))
    ensures Flatten(Grouping(ms)) == ms
  {
    if ms != [] {
      var init, m := ms[..|ms| - 1], ms[|ms| - 1];
      assert ms == init + [m];
      OrgaosSnoc(init, m);
      ClusteredSnoc(Orgaos(init), m.orgao);
      SortedInputRoundTrips(init);
      SortedStep(init, m);
    }
  }

  /** One more row of clustered input extends the concatenated groups by that row. */
  lemma SortedStep(ms: seq<Member>, m: Member)
    requires Clustered(Orgaos(ms + [m]))
    requires Flatten(Grouping(ms)) == ms
    ensures Flatten(Grouping(ms + [m])) == ms + [m]
  {
    var G := Grouping(ms);
    if j :| 0 <= j < |G| && G[j].orgao == m.orgao {
      GroupingSnocExisting(ms, m, j);
      RepeatIsLastGroup(ms, m, j);
      FlattenExtendLast(G, m);
    } else {
      GroupingSnocNew(ms, m);
      FlattenSnoc(G, OrgaoGroup(m.orgao, [m]));
    }
  }

  /** In clustered input, the group a repeated `orgao` already has is the last one. */
  lemma RepeatIsLastGroup(ms: seq<Member>, m: Member, j: nat)
    requires Clustered(Orgaos(ms + [m]))
    requires j < |Grouping(ms)| && Grouping(ms)[j].orgao == m.orgao
    ensures j == |Grouping(ms)| - 1
  {
    var os := Orgaos(ms);
    var keys := Distinct(os);
    assert keys[j] == m.orgao && m.orgao in keys;
    OrgaosSnoc(ms, m);
    assert Clustered(os + [m.orgao]);
    DistinctHas(os, m.orgao);
    ClusteredRepeatIsLastDistinct(os, m.orgao);
    DistinctUnique(os);
  }

  lemma FlattenExtendLast(gs: seq<OrgaoGroup>, m: Member)
    requires gs != []
    ensures Flatten(gs[|gs| - 1 := OrgaoGroup(gs[|gs| - 1].orgao, gs[|gs| - 1].membros + [m])]) == Flatten(gs) + [m]
  {
    var j := |gs| - 1;
    var last := OrgaoGroup(gs[j].orgao, gs[j].membros + [m]);
    assert gs[..j] + [gs[j]] == gs;
    FlattenSnoc(gs[..j], gs[j]);
    FlattenSnoc(gs[..j], last);
    assert gs[j := last] == gs[..j] + [last];
  }

  // ---------------------------------------------------------------------------
  // Separators between members of a group

  /** The page draws a separator after member `k` unless its `id` is that of the group's last member. */
  predicate HasSeparator(g: OrgaoGroup, k: nat)
    requires k < |g.membros|
  {
    g.membros[k].id != g.membros[|g.membros| - 1].id
  }

  /** With distinct ids (the table's key) a separator follows every member but the last. */
  lemma SeparatorBetweenMembers(g: OrgaoGroup, k: nat)
    requires k < |g.membros|
    requires forall a, b :: 0 <= a < b < |g.membros| ==> g.membros[a].id != g.membros[b].id
    ensures HasSeparator(g, k) <==> k < |g.membros| - 1
  {
  }
}
