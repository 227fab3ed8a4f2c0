/**
 * The cascading selector over the reference table (columns ÓRGÃO, DOTAÇÃO,
 * SEQUENCIAL): organisation, then allocation within it, then sequence within both.
 * Each step's options are recomputed from the table and the choices above it.
 */
module Selector {

  import opened Wrappers
  import opened Ordered

  /** One line of the reference table. SEQUENCIAL is a numeric column. */
  datatype Row = Row(orgao: string, dotacao: string, sequencial: int)

  /** The ÓRGÃO column. */
  function OrgaoColumn(t: seq<Row>): (r: seq<string>)
    ensures forall o :: o in r <==> exists row :: row in t && row.orgao == o
  {
    if t == [] then [] else [t[0].orgao] + OrgaoColumn(t[1..])
  }

  /** The DOTAÇÃO column restricted to the rows whose ÓRGÃO is `org`. */
  function DotacaoColumn(t: seq<Row>, org: string): (r: seq<string>)
    ensures forall d :: d in r <==> exists s :: Row(org, d, s) in t
  {
    if t == [] then []
    else if t[0].orgao == org then [t[0].dotacao] + DotacaoColumn(t[1..], org)
    else DotacaoColumn(t[1..], org)
  }

  /** The SEQUENCIAL column restricted to the rows matching both `org` and `dot`. */
  function SequencialColumn(t: seq<Row>, org: string, dot: string): (r: seq<int>)
    ensures forall s :: s in r <==> Row(org, dot, s) in t
  {
    if t == [] then []
    else if t[0].orgao == org && t[0].dotacao == dot then [t[0].sequencial] + SequencialColumn(t[1..], org, dot)
    else SequencialColumn(t[1..], org, dot)
  }

  /** `sorted(df['ÓRGÃO'].unique())`: the organisations of the table, sorted, each once. */
  function Orgaos(t: seq<Row>): (r: seq<string>)
    ensures StrictlySorted(StrLt, r) && NoDuplicates(r)
    ensures forall o :: o in r <==> exists row :: row in t && row.orgao == o
  {
    StrLtIsStrictTotalOrder();
    SortedDistinct(StrLt, OrgaoColumn(t))
  }

  /** The allocations of organisation `org`, sorted, each once. */
  function Dotacoes(t: seq<Row>, org: string): (r: seq<string>)
    ensures StrictlySorted(StrLt, r) && NoDuplicates(r)
    ensures forall d :: d in r <==> exists s :: Row(org, d, s) in t
  {
    StrLtIsStrictTotalOrder();
    SortedDistinct(StrLt, DotacaoColumn(t, org))
  }

  /** The sequence numbers of the pair (`org`, `dot`), sorted, each once. */
  function Sequenciais(t: seq<Row>, org: string, dot: string): (r: seq<int>)
    ensures StrictlySorted(IntLt, r) && NoDuplicates(r)
    ensures forall s :: s in r <==> Row(org, dot, s) in t
  {
    IntLtIsStrictTotalOrder();
    SortedDistinct(IntLt, SequencialColumn(t, org, dot))
  }

  /** The organisation drop-down: an empty choice, then the organisations. */
  function OrgaoOptions(t: seq<Row>): (r: seq<string>)
    ensures |r| == |Orgaos(t)| + 1 && r[0] == ""
    ensures r[1..] == Orgaos(t)
    ensures forall o :: o in r <==> o == "" || exists row :: row in t && row.orgao == o
  {
    [""] + Orgaos(t)
  }

  /**
   * The allocation drop-down, shown only once an organisation is chosen: `None` when
   * `org` is empty, otherwise an empty choice followed by that organisation's allocations.
   */
  function DotacaoStep(t: seq<Row>, org: string): (r: Option<seq<string>>)
    ensures r.None? <==> org == ""
    ensures r.Some? ==> |r.value| > 0 && r.value[0] == "" && forall d :: d in r.value[1..] <==> exists s :: Row(org, d, s) in t
    ensures r.Some? ==> r.value[1..] == Dotacoes(t, org)
  {
    if org == "" then None else Some([""] + Dotacoes(t, org))
  }

  /**
   * The sequence drop-down, shown only once both an organisation and an allocation are
   * chosen: `None` when either is empty, otherwise the sequences of the pair, with no
   * empty choice.
   */
  function SequencialStep(t: seq<Row>, org: string, dot: string): (r: Option<seq<int>>)
    ensures r.None? <==> org == "" || dot == ""
    ensures r.Some? ==> forall s :: s in r.value <==> Row(org, dot, s) in t
    ensures r.Some? ==> r.value == Sequenciais(t, org, dot)
  {
    if org == "" || dot == "" then None else Some(Sequenciais(t, org, dot))
  }

  /** A triple the user can reach by choosing in each of the three drop-downs in turn. */
  predicate Selectable(t: seq<Row>, org: string, dot: string, sq: int) {
    && org in OrgaoOptions(t) && org != ""
    && DotacaoStep(t, org).Some? && dot in DotacaoStep(t, org).value && dot != ""
    && SequencialStep(t, org, dot).Some? && sq in SequencialStep(t, org, dot).value
  }

  /**
   * The cascade offers exactly the table's triples (with non-empty organisation and
   * allocation): nothing reachable is missing from the table, nothing in it is unreachable.
   */
  lemma SelectableIsTableRow(t: seq<Row>, org: string, dot: string, sq: int)
    ensures Selectable(t, org, dot, sq) <==> org != "" && dot != "" && Row(org, dot, sq) in t
  {
    if org != "" && dot != "" && Row(org, dot, sq) in t {
      assert dot in Dotacoes(t, org);
      assert ([""] + Dotacoes(t, org))[1..] == Dotacoes(t, org);
    }
    if Selectable(t, org, dot, sq) {
      assert sq in Sequenciais(t, org, dot);
    }
  }

  /** An allocation taken from the allocation step always has at least one sequence to offer. */
  lemma SequenciaisNonEmpty(t: seq<Row>, org: string, dot: string)
    requires dot in Dotacoes(t, org)
    ensures |Sequenciais(t, org, dot)| > 0
  {
    var s :| Row(org, dot, s) in t;
    assert s in Sequenciais(t, org, dot);
  }

  /** The organisation list is the only sorted, duplicate-free list of the table's organisations. */
  lemma OrgaosCharacterised(t: seq<Row>, s: seq<string>)
    requires StrictlySorted(StrLt, s)
    requires forall o :: o in s <==> exists row :: row in t && row.orgao == o
    ensures s == Orgaos(t)
  {
    StrLtIsStrictTotalOrder();
    StrictlySortedUnique(StrLt, s, Orgaos(t));
  }

  /** The allocation list is the only sorted, duplicate-free list of `org`'s allocations. */
  lemma DotacoesCharacterised(t: seq<Row>, org: string, s: seq<string>)
    requires StrictlySorted(StrLt, s)
    requires forall d :: d in s <==> exists q :: Row(org, d, q) in t
    ensures s == Dotacoes(t, org)
  {
    StrLtIsStrictTotalOrder();
    StrictlySortedUnique(StrLt, s, Dotacoes(t, org));
  }

  /** The sequence list is the only increasing list of the pair's sequence numbers. */
  lemma SequenciaisCharacterised(t: seq<Row>, org: string, dot: string, s: seq<int>)
    requires StrictlySorted(IntLt, s)
    requires forall q :: q in s <==> Row(org, dot, q) in t
    ensures s == Sequenciais(t, org, dot)
  {
    IntLtIsStrictTotalOrder();
    assert forall q :: q in s <==> q in Sequenciais(t, org, dot);
    StrictlySortedUnique(IntLt, s, Sequenciais(t, org, dot));
  }
}
