/** The assembler's label table: a bounded list of (name hash, address)
    pairs, the two operations the assembler performs on it (binding a label
    at a `HERE` line and looking one up for a jump operand), and why running
    the source twice resolves every label that is bound at a single address. */
module Labels {
  import opened CLib

  /** Capacity of the table the assembler allocates. */
  const MAX_LABELS: nat := 1024

  /** A label: the hash of its name and the address it stands for. */
  datatype Label = Label(hash: int, point: int)

  /** The table: its entries in insertion order and its capacity. */
  datatype LabelSet = LabelSet(labels: seq<Label>, maxSize: nat)

  /** A freshly allocated table. */
  function Empty(maxSize: nat): (s: LabelSet)
    ensures |s.labels| == 0 && s.maxSize == maxSize
  {
    LabelSet([], maxSize)
  }

  /** Position of the first entry with hash `hash`: the search loops of the
      assembler scan from the front and stop at the first match. */
  function IndexOf(ls: seq<Label>, hash: int): (r: Option<nat>)
    ensures r.Some? ==> r.value < |ls| && ls[r.value].hash == hash
    ensures r.Some? ==> forall j | 0 <= j < r.value :: ls[j].hash != hash
    ensures r.None? ==> forall j | 0 <= j < |ls| :: ls[j].hash != hash
  {
    if |ls| == 0 then None
    else if ls[|ls| - 1].hash == hash && IndexOf(ls[..|ls| - 1], hash).None? then Some(|ls| - 1)
    else IndexOf(ls[..|ls| - 1], hash)
  }

  /** The address the table gives the hash `hash`, if it has an entry. */
  function Value(s: LabelSet, hash: int): (r: Option<int>)
    ensures r.Some? <==> hash in Keys(s)
  {
    match IndexOf(s.labels, hash)
    case None => None
    case Some(i) => Some(s.labels[i].point)
  }

  /** The hashes the table has entries for. */
  function Keys(s: LabelSet): set<int> {
    set i | 0 <= i < |s.labels| :: s.labels[i].hash
  }

  /** Entries never share a hash and never exceed the capacity. */
  predicate Valid(s: LabelSet) {
    && |s.labels| <= s.maxSize
    && forall i, j | 0 <= i < j < |s.labels| :: s.labels[i].hash != s.labels[j].hash
  }

  /** Result of `add_label`: the table afterwards and the error it reports
      (0 when none). */
  datatype Added = Added(table: LabelSet, err: int)

  /** `add_label`: a full table refuses with ENOMEM, even when the hash is
      already present (the capacity test comes before the search);
      otherwise the first entry with this hash gets the new address, or a
      new entry is appended. */
  function AddLabel(s: LabelSet, hash: int, point: int): (r: Added)
    ensures r.err == ENOMEM <==> |s.labels| >= s.maxSize
    ensures r.err == 0 || r.err == ENOMEM
    ensures r.err == ENOMEM ==> r.table == s
    ensures r.err == 0 ==> Value(r.table, hash) == Some(point)
    ensures forall x | x != hash :: Value(r.table, x) == Value(s, x)
    ensures r.table.maxSize == s.maxSize
    ensures r.err == 0 ==> Keys(r.table) == Keys(s) + {hash}
    ensures |r.table.labels| == |s.labels| + (if r.err == 0 && hash !in Keys(s) then 1 else 0)
    ensures Valid(s) ==> Valid(r.table)
  {
    if |s.labels| >= s.maxSize then Added(s, ENOMEM)
    else match IndexOf(s.labels, hash)
      case Some(i) =>
        var t := LabelSet(s.labels[i := Label(hash, point)], s.maxSize);
        UpdateValues(s, i, point);
        Added(t, 0)
      case None =>
        var t := LabelSet(s.labels + [Label(hash, point)], s.maxSize);
        AppendValues(s, hash, point);
        Added(t, 0)
  }

  /** Rewriting the address of the first entry for `hash` changes the value
      of that hash only. */
  lemma UpdateValues(s: LabelSet, i: nat, point: int)
    requires i < |s.labels| && IndexOf(s.labels, s.labels[i].hash) == Some(i)
    ensures var t := LabelSet(s.labels[i := Label(s.labels[i].hash, point)], s.maxSize);
      && Value(t, s.labels[i].hash) == Some(point)
      && Keys(t) == Keys(s)
      && (forall x | x != s.labels[i].hash :: Value(t, x) == Value(s, x))
  {
    var hash := s.labels[i].hash;
    var t := LabelSet(s.labels[i := Label(hash, point)], s.maxSize);
    forall x
      ensures IndexOf(t.labels, x) == IndexOf(s.labels, x)
    {
      SameHashesSameIndex(s.labels, t.labels, x);
    }
    assert Keys(t) == Keys(s) by {
      forall y | y in Keys(s) ensures y in Keys(t) {
        var j :| 0 <= j < |s.labels| && s.labels[j].hash == y;
        assert t.labels[j].hash == y;
      }
    }
  }

  /** Appending an entry for a hash the table lacks gives that hash its
      address and leaves every other value alone. */
  lemma AppendValues(s: LabelSet, hash: int, point: int)
    requires IndexOf(s.labels, hash).None?
    ensures var t := LabelSet(s.labels + [Label(hash, point)], s.maxSize);
      && Value(t, hash) == Some(point)
      && Keys(t) == Keys(s) + {hash}
      && (forall x | x != hash :: Value(t, x) == Value(s, x))
  {
    var t := LabelSet(s.labels + [Label(hash, point)], s.maxSize);
    assert t.labels[..|t.labels| - 1] == s.labels;
    assert Keys(t) == Keys(s) + {hash} by {
      assert t.labels[|s.labels|].hash == hash;
      forall y | y in Keys(s) ensures y in Keys(t) {
        var j :| 0 <= j < |s.labels| && s.labels[j].hash == y;
        assert t.labels[j].hash == y;
      }
    }
  }

  /** Two lists with the same hashes, position by position, have the same
      first match for every hash. */
  lemma {:induction false} SameHashesSameIndex(a: seq<Label>, b: seq<Label>, x: int)
    requires |a| == |b| && forall j | 0 <= j < |a| :: a[j].hash == b[j].hash
    ensures IndexOf(a, x) == IndexOf(b, x)
  {
    if |a| > 0 {
      SameHashesSameIndex(a[..|a| - 1], b[..|b| - 1], x);
    }
  }

  /** Result of `get_label`: the table afterwards and the address returned. */
  datatype Got = Got(table: LabelSet, point: int)

  /** `get_label`: the address of a known label; an unknown one is entered
      at address 0 (when there is room; the error of that insertion stays
      local) and 0 is returned. */
  function GetLabel(s: LabelSet, hash: int): (r: Got)
    ensures r.point == Value(s, hash).GetOr(0)
    ensures hash in Keys(s) ==> r.table == s
    ensures hash !in Keys(s) ==>
      Value(r.table, hash) == (if |s.labels| < s.maxSize then Some(0) else None)
    ensures forall x | x != hash :: Value(r.table, x) == Value(s, x)
    ensures r.table.maxSize == s.maxSize
    ensures Keys(r.table) == Keys(s) + (if |s.labels| < s.maxSize then {hash} else {})
    ensures |r.table.labels| == |s.labels| + (if |s.labels| < s.maxSize && hash !in Keys(s) then 1 else 0)
    ensures Valid(s) ==> Valid(r.table)
  {
    match IndexOf(s.labels, hash)
    case Some(i) => Got(s, s.labels[i].point)
    case None => Got(AddLabel(s, hash, 0).table, 0)
  }

  /** What one line of source does to the table: bind a label, refer to one
      from a jump operand, or nothing. */
  datatype Event = Define(hash: int, point: int) | Refer(hash: int) | Quiet

  /** The table after one event. */
  function Apply(s: LabelSet, e: Event): LabelSet {
    match e
    case Define(hash, point) => AddLabel(s, hash, point).table
    case Refer(hash) => GetLabel(s, hash).table
    case Quiet => s
  }

  /** The table after a run of events, in order. */
  function Run(s: LabelSet, es: seq<Event>): LabelSet
    decreases |es|
  {
    if |es| == 0 then s else Apply(Run(s, es[..|es| - 1]), es[|es| - 1])
  }

  /** The hashes a run of events mentions. */
  function Mentioned(es: seq<Event>): set<int>
    decreases |es|
  {
    if |es| == 0 then {}
    else Mentioned(es[..|es| - 1]) + (if es[|es| - 1].Quiet? then {} else {es[|es| - 1].hash})
  }

  /** `x` is bound somewhere, and every binding of `x` gives it `p`. */
  predicate BoundOnlyAt(es: seq<Event>, x: int, p: int) {
    && (exists k | 0 <= k < |es| :: es[k] == Define(x, p))
    && forall k | 0 <= k < |es| :: es[k].Define? && es[k].hash == x ==> es[k].point == p
  }

  /** Mentions only grow along a run. */
  lemma {:induction false} MentionedPrefix(es: seq<Event>, k: nat)
    requires k <= |es|
    ensures Mentioned(es[..k]) <= Mentioned(es)
    decreases |es|
  {
    if k < |es| {
      assert es[..|es| - 1][..k] == es[..k];
      MentionedPrefix(es[..|es| - 1], k);
    } else {
      assert es[..k] == es;
    }
  }

  /** A subset is no larger than its superset. */
  lemma SubsetCard(a: set<int>, b: set<int>)
    requires a <= b
    ensures |a| <= |b|
  {
    assert b == a + (b - a);
  }

  /** Starting from an empty table with room for more names than the
      events mention, the table holds exactly the mentioned hashes, and no
      insertion ever meets a full table. */
  lemma {:induction false} FirstPassKeys(es: seq<Event>, maxSize: nat)
    requires |Mentioned(es)| < maxSize
    ensures Keys(Run(Empty(maxSize), es)) == Mentioned(es)
    ensures |Run(Empty(maxSize), es).labels| == |Mentioned(es)|
    ensures Run(Empty(maxSize), es).maxSize == maxSize
    decreases |es|
  {
    if |es| > 0 {
      var pre := es[..|es| - 1];
      MentionedPrefix(es, |es| - 1);
      SubsetCard(Mentioned(pre), Mentioned(es));
      FirstPassKeys(pre, maxSize);
    }
  }

  /** An event over a table with room to spare that holds `x` at `p`
      keeps it there, unless it binds `x` elsewhere. */
  lemma ApplyKeeps(s: LabelSet, e: Event, x: int, p: int)
    requires |s.labels| < s.maxSize && Value(s, x) == Some(p)
    requires e.Define? && e.hash == x ==> e.point == p
    ensures Value(Apply(s, e), x) == Some(p)
  {
  }

  /** After the first pass, a label bound at `p` by event `d`, and nowhere
      else, has the value `p`. */
  lemma {:induction false} FirstPassValue(es: seq<Event>, maxSize: nat, x: int, p: int, d: nat)
    requires |Mentioned(es)| < maxSize
    requires d < |es| && es[d] == Define(x, p)
    requires forall k | 0 <= k < |es| :: es[k].Define? && es[k].hash == x ==> es[k].point == p
    ensures Value(Run(Empty(maxSize), es), x) == Some(p)
    decreases |es|
  {
    var pre := es[..|es| - 1];
    MentionedPrefix(es, |es| - 1);
    SubsetCard(Mentioned(pre), Mentioned(es));
    FirstPassKeys(pre, maxSize);
    if d < |es| - 1 {
      FirstPassValue(pre, maxSize, x, p, d);
      ApplyKeeps(Run(Empty(maxSize), pre), es[|es| - 1], x, p);
    }
  }

  /** Replaying events over a table that already holds every hash they
      mention, with room to spare, never changes its keys or size, and
      keeps the value of a label every event binds, if at all, to the same
      address. */
  lemma {:induction false} SecondPass(s: LabelSet, es: seq<Event>, x: int, p: int)
    requires |s.labels| < s.maxSize
    requires Mentioned(es) <= Keys(s)
    requires Value(s, x) == Some(p)
    requires forall k | 0 <= k < |es| :: es[k].Define? && es[k].hash == x ==> es[k].point == p
    ensures Keys(Run(s, es)) == Keys(s) && |Run(s, es).labels| == |s.labels|
    ensures Run(s, es).maxSize == s.maxSize
    ensures Value(Run(s, es), x) == Some(p)
    decreases |es|
  {
    if |es| > 0 {
      var pre := es[..|es| - 1];
      assert Mentioned(pre) <= Mentioned(es);
      SecondPass(s, pre, x, p);
    }
  }

  /** The two passes of the assembler: the second pass replays the events
      of the first over the table the first pass left, so at every point of
      the second pass a label bound at a single address already has that
      address, including at references that come before the binding. */
  lemma LabelsSettle(es: seq<Event>, maxSize: nat, x: int, p: int, k: nat)
    requires |Mentioned(es)| < maxSize
    requires BoundOnlyAt(es, x, p)
    requires k <= |es|
    ensures Value(Run(Run(Empty(maxSize), es), es[..k]), x) == Some(p)
  {
    var first := Run(Empty(maxSize), es);
    FirstPassKeys(es, maxSize);
    var d :| 0 <= d < |es| && es[d] == Define(x, p);
    FirstPassValue(es, maxSize, x, p, d);
    MentionedPrefix(es, k);
    SecondPass(first, es[..k], x, p);
  }

  /** A table filled to capacity refuses to rebind a label it already
      holds: the capacity test in `add_label` comes before the search. */
  lemma FullTableRefusesRebind(s: LabelSet, hash: int, point: int)
    requires |s.labels| == s.maxSize && hash in Keys(s)
    requires Value(s, hash) != Some(point)
    ensures AddLabel(s, hash, point).err == ENOMEM
    ensures Value(AddLabel(s, hash, point).table, hash) != Some(point)
  {
  }
}
