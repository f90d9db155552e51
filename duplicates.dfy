/**
 * Duplicate-label resolution of the workbook processor. Columns whose
 * resolved labels coincide form a group; in a group of two or more, a column
 * whose data-row fill rate is below half of the group's best fill is dropped
 * (a footnote column under a merged group header), and the remaining
 * occurrences of a label are numbered " (2)", " (3)", ... in column order.
 *
 * The specification works on the fill rate of every position, fills[p]; the
 * method computes those fill rates from the rows as the processor does.
 */
module DuplicateResolution {
  import opened Text
  import opened Model
  import opened FillRates

  /** A duplicate is dropped when its fill is below this fraction of the best fill in its group. */
  const DedupFillRatioThreshold: real := 0.5

  /** The positions below n whose label is key, in increasing order. */
  function Positions<L(==)>(headers: seq<L>, key: L, n: nat): (ps: seq<nat>)
    requires n <= |headers|
    ensures forall j :: 0 <= j < |ps| ==> ps[j] < n && headers[ps[j]] == key
    ensures forall j, k :: 0 <= j < k < |ps| ==> ps[j] < ps[k]
    ensures forall p: nat :: p in ps <==> p < n && headers[p] == key
  {
    if n == 0 then []
    else Positions(headers, key, n - 1) + (if headers[n - 1] == key then [n - 1] else [])
  }

  /** The largest fill among positions ps (the stream maximum), 0 when ps is empty. */
  function MaxOf(fills: seq<real>, ps: seq<nat>): (m: real)
    requires forall j :: 0 <= j < |ps| ==> ps[j] < |fills|
    ensures forall j :: 0 <= j < |ps| ==> fills[ps[j]] <= m
    ensures ps == [] ==> m == 0.0
    ensures ps != [] ==> exists j :: 0 <= j < |ps| && fills[ps[j]] == m
  {
    if ps == [] then 0.0
    else if |ps| == 1 then fills[ps[0]]
    else
      var rest := MaxOf(fills, ps[..|ps| - 1]);
      var last := fills[ps[|ps| - 1]];
      assert forall j :: 0 <= j < |ps| - 1 ==> ps[..|ps| - 1][j] == ps[j];
      if last > rest then last else rest
  }

  /** The best fill in the group of position p. */
  function GroupBest<L(==)>(headers: seq<L>, fills: seq<real>, p: nat): real
    requires |fills| == |headers| && p < |headers|
  {
    MaxOf(fills, Positions(headers, headers[p], |headers|))
  }

  /**
   * Position p is dropped: its label is shared, the group's best fill is
   * positive and p's fill is below half of it.
   */
  predicate Dropped<L(==)>(headers: seq<L>, fills: seq<real>, p: nat)
    requires |fills| == |headers| && p < |headers|
  {
    |Positions(headers, headers[p], |headers|)| > 1
    && GroupBest(headers, fills, p) > 0.0
    && fills[p] < GroupBest(headers, fills, p) * DedupFillRatioThreshold
  }

  /** The positions the processor drops: toDrop after its second pass. */
  function DropSet<L(==)>(headers: seq<L>, fills: seq<real>): set<nat>
    requires |fills| == |headers|
  {
    set p: nat | p < |headers| && Dropped(headers, fills, p)
  }

  /** The positions below n that are not in drop, in increasing order. */
  function Survivors(drop: set<nat>, n: nat): (s: seq<nat>)
    ensures |s| <= n
  {
    if n == 0 then []
    else Survivors(drop, n - 1) + (if n - 1 in drop then [] else [n - 1])
  }

  /** The survivors are exactly the positions below n outside drop, in strictly increasing order. */
  lemma {:induction false} SurvivorsShape(drop: set<nat>, n: nat)
    ensures forall j :: 0 <= j < |Survivors(drop, n)| ==> Survivors(drop, n)[j] < n
    ensures forall j, k :: 0 <= j < k < |Survivors(drop, n)| ==> Survivors(drop, n)[j] < Survivors(drop, n)[k]
    ensures forall p: nat :: p in Survivors(drop, n) <==> p < n && p !in drop
  {
    if n > 0 {
      SurvivorsShape(drop, n - 1);
    }
  }

  /** How many positions below n, not in drop, carry the label key. */
  function KeptCount<L(==)>(headers: seq<L>, drop: set<nat>, key: L, n: nat): (k: nat)
    requires n <= |headers|
    ensures k <= n
  {
    if n == 0 then 0
    else KeptCount(headers, drop, key, n - 1) + (if headers[n - 1] == key && n - 1 !in drop then 1 else 0)
  }

  /** The output label of the count-th surviving occurrence of key. */
  function FinalLabel(key: string, count: nat): (name: string)
    ensures name == key <==> count == 1
  {
    if count == 1 then key else key + " (" + NatToString(count) + ")"
  }

  /**
   * The output labels for the positions below n: each survivor's label,
   * numbered by how many survivors with that label come up to and including it.
   */
  function Labelled(headers: seq<string>, drop: set<nat>, n: nat): (out: seq<string>)
    requires n <= |headers|
    ensures |out| == |Survivors(drop, n)|
  {
    if n == 0 then []
    else
      var rest := Labelled(headers, drop, n - 1);
      if n - 1 in drop then rest
      else rest + [FinalLabel(headers[n - 1], KeptCount(headers, drop, headers[n - 1], n))]
  }

  /** The entries of cols at the positions below n outside drop: each survivor's column index. */
  function SurvivingColumns<T>(cols: seq<T>, drop: set<nat>, n: nat): (out: seq<T>)
    requires n <= |cols|
    ensures |out| == |Survivors(drop, n)|
  {
    if n == 0 then []
    else
      var rest := SurvivingColumns(cols, drop, n - 1);
      if n - 1 in drop then rest else rest + [cols[n - 1]]
  }

  /**
   * The j-th output label belongs to the j-th survivor p: if p is the k-th
   * survivor with its label, the label is numbered k (bare for k = 1).
   */
  lemma {:induction false} LabelledAt(headers: seq<string>, drop: set<nat>, n: nat, j: nat)
    requires n <= |headers| && j < |Survivors(drop, n)|
    ensures Survivors(drop, n)[j] < n
    ensures var p := Survivors(drop, n)[j];
            Labelled(headers, drop, n)[j] == FinalLabel(headers[p], KeptCount(headers, drop, headers[p], p + 1))
  {
    var rest := Labelled(headers, drop, n - 1);
    if n - 1 in drop || j < |Survivors(drop, n - 1)| {
      LabelledAt(headers, drop, n - 1, j);
      assert Survivors(drop, n)[j] == Survivors(drop, n - 1)[j];
      assert Labelled(headers, drop, n)[j] == rest[j];
    } else {
      assert Survivors(drop, n)[j] == n - 1;
      assert Labelled(headers, drop, n) == rest + [FinalLabel(headers[n - 1], KeptCount(headers, drop, headers[n - 1], n))];
    }
  }

  /** The j-th output column is the column index at the j-th survivor. */
  lemma {:induction false} SurvivingColumnsAt<T>(cols: seq<T>, drop: set<nat>, n: nat, j: nat)
    requires n <= |cols| && j < |Survivors(drop, n)|
    ensures Survivors(drop, n)[j] < n
    ensures SurvivingColumns(cols, drop, n)[j] == cols[Survivors(drop, n)[j]]
  {
    if n - 1 in drop || j < |Survivors(drop, n - 1)| {
      SurvivingColumnsAt(cols, drop, n - 1, j);
    }
  }

  /** The fill rate of every position's column, measured on rows. */
  function Fills(rows: seq<RowData>, cols: seq<nat>): (fills: seq<real>)
    ensures |fills| == |cols|
  {
    seq(|cols|, p requires 0 <= p < |cols| => FillRate(rows, cols[p]))
  }

  /** resolveDuplicates as a pair of values: the final labels and the surviving column indices. */
  function Deduplicated(headers: seq<string>, cols: seq<nat>, rows: seq<RowData>): (out: (seq<string>, seq<nat>))
    requires |cols| == |headers|
    ensures |out.0| == |out.1|
  {
    var drop := DropSet(headers, Fills(rows, cols));
    (Labelled(headers, drop, |headers|), SurvivingColumns(cols, drop, |headers|))
  }

  /** The first pass: every label with its positions, and the labels in first-seen order. */
  method GroupByLabel<L(==)>(headers: seq<L>) returns (byLabel: map<L, seq<nat>>, labelOrder: seq<L>)
    ensures forall l :: l in byLabel ==> byLabel[l] == Positions(headers, l, |headers|)
    ensures forall p :: 0 <= p < |headers| ==> headers[p] in labelOrder
    ensures forall j :: 0 <= j < |labelOrder| ==> labelOrder[j] in byLabel
  {
    byLabel := map[];
    labelOrder := [];
    for i := 0 to |headers|
      invariant forall l {:trigger Positions(headers, l, i)} :: Positions(headers, l, i) == (if l in byLabel then byLabel[l] else [])
      invariant forall p :: 0 <= p < i ==> headers[p] in byLabel
      invariant forall l :: l in byLabel <==> l in labelOrder
    {
      var key := headers[i];
      // computeIfAbsent(key, new list).add(i)
      var positions := if key in byLabel then byLabel[key] else [];
      if key !in byLabel {
        labelOrder := labelOrder + [key];
      }
      byLabel := byLabel[key := positions + [i]];
    }
  }

  /** The best fill rate among the columns at positions (the stream maximum, 0 for none). */
  method GroupMaxFill(rows: seq<RowData>, colIndices: seq<nat>, positions: seq<nat>) returns (maxFill: real)
    requires forall j :: 0 <= j < |positions| ==> positions[j] < |colIndices|
    ensures maxFill == MaxOf(Fills(rows, colIndices), positions)
  {
    ghost var fills := Fills(rows, colIndices);
    maxFill := 0.0;
    for q := 0 to |positions|
      invariant maxFill == MaxOf(fills, positions[..q])
    {
      assert positions[..q + 1][..q] == positions[..q];
      var fill := FillRate(rows, colIndices[positions[q]]);
      if q == 0 || fill > maxFill {
        maxFill := fill;
      }
    }
    assert positions[..|positions|] == positions;
  }

  /** The columns of one group whose fill is below half of the group's best fill maxFill (none when it is 0). */
  method GroupDrops(rows: seq<RowData>, colIndices: seq<nat>, positions: seq<nat>, maxFill: real)
    returns (drops: set<nat>)
    requires forall j :: 0 <= j < |positions| ==> positions[j] < |colIndices|
    ensures forall p: nat :: p in drops <==>
              p in positions && maxFill > 0.0 && Fills(rows, colIndices)[p] < maxFill * DedupFillRatioThreshold
  {
    ghost var fills := Fills(rows, colIndices);
    drops := {};
    for q := 0 to |positions|
      invariant forall p: nat :: p in drops <==>
                  p in positions[..q] && maxFill > 0.0 && fills[p] < maxFill * DedupFillRatioThreshold
    {
      var pos := positions[q];
      var fill := FillRate(rows, colIndices[pos]);
      if maxFill > 0.0 && fill < maxFill * DedupFillRatioThreshold {
        drops := drops + {pos};
      }
    }
    assert positions[..|positions|] == positions;
  }

  /** One group of the second pass: the positions labelled key that are dropped. */
  method GroupStep<L(==)>(headers: seq<L>, colIndices: seq<nat>, rows: seq<RowData>, key: L, positions: seq<nat>)
    returns (drops: set<nat>)
    requires |colIndices| == |headers|
    requires positions == Positions(headers, key, |headers|)
    ensures forall p: nat :: p in drops <==>
              p < |headers| && headers[p] == key && Dropped(headers, Fills(rows, colIndices), p)
  {
    ghost var fills := Fills(rows, colIndices);
    if |positions| <= 1 {
      drops := {};
      forall p: nat | p < |headers| && headers[p] == key ensures !Dropped(headers, fills, p) {
        assert Positions(headers, headers[p], |headers|) == positions;
      }
      return;
    }
    var maxFill := GroupMaxFill(rows, colIndices, positions);
    drops := GroupDrops(rows, colIndices, positions, maxFill);
    forall p: nat | p < |headers| && headers[p] == key ensures p in drops <==> Dropped(headers, fills, p) {
      assert Positions(headers, headers[p], |headers|) == positions;
    }
  }

  /** The second pass: in every group of two or more, mark the columns far below the group's best fill. */
  method DecideDrops<L(==)>(headers: seq<L>, colIndices: seq<nat>, rows: seq<RowData>,
                     byLabel: map<L, seq<nat>>, labelOrder: seq<L>) returns (toDrop: set<nat>)
    requires |colIndices| == |headers|
    requires forall l :: l in byLabel ==> byLabel[l] == Positions(headers, l, |headers|)
    requires forall p :: 0 <= p < |headers| ==> headers[p] in labelOrder
    requires forall j :: 0 <= j < |labelOrder| ==> labelOrder[j] in byLabel
    ensures toDrop == DropSet(headers, Fills(rows, colIndices))
  {
    ghost var fills := Fills(rows, colIndices);
    toDrop := {};
    for k := 0 to |labelOrder|
      invariant forall p: nat :: p in toDrop <==> p < |headers| && headers[p] in labelOrder[..k] && Dropped(headers, fills, p)
    {
      var key := labelOrder[k];
      var drops := GroupStep(headers, colIndices, rows, key, byLabel[key]);
      assert labelOrder[..k + 1] == labelOrder[..k] + [key];
      toDrop := toDrop + drops;
    }
    assert labelOrder[..|labelOrder|] == labelOrder;
  }

  /** The third pass: the survivors in order, repeated labels numbered by a running count per label. */
  method EmitSurvivors(headers: seq<string>, colIndices: seq<nat>, toDrop: set<nat>)
    returns (outHeaders: seq<string>, outCols: seq<nat>)
    requires |colIndices| == |headers|
    ensures outHeaders == Labelled(headers, toDrop, |headers|)
    ensures outCols == SurvivingColumns(colIndices, toDrop, |headers|)
  {
    var seen: map<string, nat> := map[];
    outHeaders := [];
    outCols := [];
    for i := 0 to |headers|
      invariant forall l {:trigger KeptCount(headers, toDrop, l, i)} ::
                  KeptCount(headers, toDrop, l, i) == (if l in seen then seen[l] else 0)
      invariant outHeaders == Labelled(headers, toDrop, i)
      invariant outCols == SurvivingColumns(colIndices, toDrop, i)
    {
      if i in toDrop {
        assert Labelled(headers, toDrop, i + 1) == outHeaders;
        assert SurvivingColumns(colIndices, toDrop, i + 1) == outCols;
        continue;
      }
      var key := headers[i];
      var count := if key in seen then seen[key] + 1 else 1;
      assert count == KeptCount(headers, toDrop, key, i + 1);
      seen := seen[key := count];
      var finalLabel := FinalLabel(key, count);
      assert Labelled(headers, toDrop, i + 1) == outHeaders + [finalLabel];
      assert SurvivingColumns(colIndices, toDrop, i + 1) == outCols + [colIndices[i]];
      outHeaders := outHeaders + [finalLabel];
      outCols := outCols + [colIndices[i]];
    }
  }

  /** resolveDuplicates: group positions by label, mark the low-fill duplicates, emit the rest. */
  method ResolveDuplicates(headers: seq<string>, colIndices: seq<nat>, rows: seq<RowData>)
    returns (outHeaders: seq<string>, outCols: seq<nat>)
    requires |colIndices| == |headers|
    ensures (outHeaders, outCols) == Deduplicated(headers, colIndices, rows)
  {
    var byLabel, labelOrder := GroupByLabel(headers);
    var toDrop := DecideDrops(headers, colIndices, rows, byLabel, labelOrder);
    outHeaders, outCols := EmitSurvivors(headers, colIndices, toDrop);
  }

  // ---------------------------------------------------------------------
  // Which columns are dropped

  /** Only a label shared by another position can lose a column. */
  lemma DroppedOnlyWhenShared<L>(headers: seq<L>, fills: seq<real>, p: nat)
    requires |fills| == |headers| && p < |headers| && Dropped(headers, fills, p)
    ensures exists q :: 0 <= q < |headers| && q != p && headers[q] == headers[p]
  {
    var ps := Positions(headers, headers[p], |headers|);
    assert p in ps;
    if ps[0] == p {
      assert ps[1] != p && headers[ps[1]] == headers[p];
    } else {
      assert headers[ps[0]] == headers[p];
    }
  }

  /** Some position of every group has the group's best fill. */
  lemma GroupBestAttained<L>(headers: seq<L>, fills: seq<real>, p: nat)
    requires |fills| == |headers| && p < |headers|
    ensures exists q :: 0 <= q < |headers| && headers[q] == headers[p] && fills[q] == GroupBest(headers, fills, p)
  {
    var ps := Positions(headers, headers[p], |headers|);
    assert p in ps;
    var j :| 0 <= j < |ps| && fills[ps[j]] == MaxOf(fills, ps);
    assert headers[ps[j]] == headers[p];
  }

  /** A column with the best fill of its group is never dropped. */
  lemma BestFilledSurvives<L>(headers: seq<L>, fills: seq<real>, p: nat)
    requires |fills| == |headers| && p < |headers|
    requires forall q :: 0 <= q < |headers| && headers[q] == headers[p] ==> fills[q] <= fills[p]
    ensures !Dropped(headers, fills, p)
  {
    GroupBestAttained(headers, fills, p);
  }

  /** Every label keeps at least one column: the best-filled column of its group. */
  lemma EveryLabelSurvives<L>(headers: seq<L>, fills: seq<real>, p: nat)
    requires |fills| == |headers| && p < |headers|
    ensures exists q :: 0 <= q < |headers| && headers[q] == headers[p] && q !in DropSet(headers, fills)
  {
    GroupBestAttained(headers, fills, p);
    var q :| 0 <= q < |headers| && headers[q] == headers[p] && fills[q] == GroupBest(headers, fills, p);
    assert Positions(headers, headers[q], |headers|) == Positions(headers, headers[p], |headers|);
    assert !Dropped(headers, fills, q);
  }

  /** A group in which no column has any fill loses nothing. */
  lemma ZeroFillGroupKeepsAll<L>(headers: seq<L>, fills: seq<real>, p: nat)
    requires |fills| == |headers| && p < |headers|
    requires forall q :: 0 <= q < |headers| && headers[q] == headers[p] ==> fills[q] == 0.0
    ensures !Dropped(headers, fills, p)
  {
    GroupBestAttained(headers, fills, p);
  }

  /** In a shared group with a positive best fill, exactly the columns below half of it go. */
  lemma DropRule<L>(headers: seq<L>, fills: seq<real>, p: nat, q: nat)
    requires |fills| == |headers| && p < |headers| && q < |headers| && p != q && headers[q] == headers[p]
    ensures Dropped(headers, fills, p) <==>
              GroupBest(headers, fills, p) > 0.0 && fills[p] < GroupBest(headers, fills, p) * DedupFillRatioThreshold
  {
    var ps := Positions(headers, headers[p], |headers|);
    assert p in ps && q in ps;
    var i :| 0 <= i < |ps| && ps[i] == p;
    var k :| 0 <= k < |ps| && ps[k] == q;
    assert i != k;
  }

  // ---------------------------------------------------------------------
  // Numbering of the survivors

  /** The running count of a label never decreases. */
  lemma {:induction false} KeptCountGrows<L>(headers: seq<L>, drop: set<nat>, key: L, m: nat, n: nat)
    requires m <= n <= |headers|
    ensures KeptCount(headers, drop, key, m) <= KeptCount(headers, drop, key, n)
    decreases n - m
  {
    if m < n {
      KeptCountGrows(headers, drop, key, m, n - 1);
    }
  }

  /** A later survivor with the same label gets a strictly larger number; a survivor counts itself. */
  lemma NumberedApart<L>(headers: seq<L>, drop: set<nat>, p: nat, q: nat)
    requires p < q < |headers| && headers[p] == headers[q] && q !in drop
    ensures KeptCount(headers, drop, headers[p], p + 1) < KeptCount(headers, drop, headers[q], q + 1)
  {
    KeptCountGrows(headers, drop, headers[p], p + 1, q);
  }

  /** The label of p ends with a closing parenthesis. */
  predicate EndsWithParen(s: string) {
    |s| > 0 && s[|s| - 1] == ')'
  }

  /** Numbered labels with different numbers, or different stems, differ. */
  lemma NumberedLabelsDiffer(a: string, m: nat, b: string, n: nat)
    requires m > 1 && n > 1 && (a != b || m != n)
    ensures FinalLabel(a, m) != FinalLabel(b, n)
  {
    var d, e := NatToString(m), NatToString(n);
    var s, t := a + " (" + d + ")", b + " (" + e + ")";
    NatToStringDigits(m);
    NatToStringDigits(n);
    if |s| == |t| {
      if |d| < |e| {
        var i := |s| - 2 - |d|;
        assert s[i] == '(' && t[i] == e[i - |b| - 2];
      } else if |e| < |d| {
        var i := |t| - 2 - |e|;
        assert t[i] == '(' && s[i] == d[i - |a| - 2];
      } else if d != e {
        assert s[|s| - 1 - |d|..|s| - 1] == d && t[|t| - 1 - |e|..|t| - 1] == e;
      } else {
        NatToStringInjective(m, n);
        assert s[..|a|] == a && t[..|b|] == b;
      }
    }
  }

  /**
   * Two output labels for different (label, number) pairs differ, provided
   * no input label itself ends with a closing parenthesis.
   */
  lemma FinalLabelsDiffer(a: string, m: nat, b: string, n: nat)
    requires m >= 1 && n >= 1 && (a != b || m != n)
    requires !EndsWithParen(a) && !EndsWithParen(b)
    ensures FinalLabel(a, m) != FinalLabel(b, n)
  {
    if m > 1 && n > 1 {
      NumberedLabelsDiffer(a, m, b, n);
    } else if m > 1 {
      var s := FinalLabel(a, m);
      assert s[|s| - 1] == ')';
    } else if n > 1 {
      var t := FinalLabel(b, n);
      assert t[|t| - 1] == ')';
    }
  }

  // ---------------------------------------------------------------------
  // The result of resolveDuplicates

  /**
   * The output pairs each surviving column with its label: the j-th
   * survivor (see SurvivorsShape) gives the j-th column index, and if it is
   * the k-th survivor of its label it is labelled "label (k)", the first one bare.
   */
  lemma OutputShape(headers: seq<string>, cols: seq<nat>, drop: set<nat>)
    requires |cols| == |headers|
    ensures var s := Survivors(drop, |headers|);
            |Labelled(headers, drop, |headers|)| == |s| && |SurvivingColumns(cols, drop, |headers|)| == |s|
            && (forall j :: 0 <= j < |s| ==> s[j] < |headers| && SurvivingColumns(cols, drop, |headers|)[j] == cols[s[j]])
            && (forall j :: 0 <= j < |s| ==>
                  (s[j] < |headers| &&
                   Labelled(headers, drop, |headers|)[j] == FinalLabel(headers[s[j]], KeptCount(headers, drop, headers[s[j]], s[j] + 1))))
  {
    var s := Survivors(drop, |headers|);
    var labels, columns := Labelled(headers, drop, |headers|), SurvivingColumns(cols, drop, |headers|);
    forall j | 0 <= j < |s| ensures s[j] < |headers| && columns[j] == cols[s[j]] {
      SurvivingColumnsAt(cols, drop, |headers|, j);
    }
    forall j | 0 <= j < |s| ensures s[j] < |headers| &&
        labels[j] == FinalLabel(headers[s[j]], KeptCount(headers, drop, headers[s[j]], s[j] + 1)) {
      LabelledAt(headers, drop, |headers|, j);
    }
  }

  /** Two survivors at different positions p < q get different output labels. */
  lemma SurvivorPairLabelsDiffer(headers: seq<string>, drop: set<nat>, p: nat, q: nat)
    requires forall i :: 0 <= i < |headers| ==> !EndsWithParen(headers[i])
    requires p < q < |headers| && p !in drop && q !in drop
    ensures FinalLabel(headers[p], KeptCount(headers, drop, headers[p], p + 1)) !=
            FinalLabel(headers[q], KeptCount(headers, drop, headers[q], q + 1))
  {
    var m := KeptCount(headers, drop, headers[p], p + 1);
    var n := KeptCount(headers, drop, headers[q], q + 1);
    KeptCountGrows(headers, drop, headers[p], 0, p);
    KeptCountGrows(headers, drop, headers[q], 0, q);
    if headers[p] == headers[q] {
      NumberedApart(headers, drop, p, q);
    }
    FinalLabelsDiffer(headers[p], m, headers[q], n);
  }

  /** The labels of two different survivors differ when no input label ends with a closing parenthesis. */
  lemma SurvivorLabelsDiffer(headers: seq<string>, drop: set<nat>, j: nat, k: nat)
    requires forall i :: 0 <= i < |headers| ==> !EndsWithParen(headers[i])
    requires j < k < |Survivors(drop, |headers|)|
    ensures Labelled(headers, drop, |headers|)[j] != Labelled(headers, drop, |headers|)[k]
  {
    var s := Survivors(drop, |headers|);
    SurvivorsShape(drop, |headers|);
    LabelledAt(headers, drop, |headers|, j);
    LabelledAt(headers, drop, |headers|, k);
    assert s[j] in s && s[k] in s;
    SurvivorPairLabelsDiffer(headers, drop, s[j], s[k]);
  }

  /** Non-empty input labels give non-empty output labels: numbering only appends. */
  lemma LabelsNonEmpty(headers: seq<string>, drop: set<nat>)
    requires forall i :: 0 <= i < |headers| ==> headers[i] != ""
    ensures forall j :: 0 <= j < |Labelled(headers, drop, |headers|)| ==> Labelled(headers, drop, |headers|)[j] != ""
  {
    forall j | 0 <= j < |Labelled(headers, drop, |headers|)|
      ensures Labelled(headers, drop, |headers|)[j] != ""
    {
      LabelledAt(headers, drop, |headers|, j);
      var p := Survivors(drop, |headers|)[j];
      var count := KeptCount(headers, drop, headers[p], p + 1);
      assert |FinalLabel(headers[p], count)| >= |headers[p]|;
    }
  }

  /** When no label ends with a closing parenthesis, the output labels are pairwise distinct. */
  lemma DistinctOutputLabels(headers: seq<string>, drop: set<nat>)
    requires forall i :: 0 <= i < |headers| ==> !EndsWithParen(headers[i])
    ensures forall j, k :: 0 <= j < k < |Labelled(headers, drop, |headers|)| ==>
              Labelled(headers, drop, |headers|)[j] != Labelled(headers, drop, |headers|)[k]
  {
    forall j, k | 0 <= j < k < |Labelled(headers, drop, |headers|)|
      ensures Labelled(headers, drop, |headers|)[j] != Labelled(headers, drop, |headers|)[k]
    {
      SurvivorLabelsDiffer(headers, drop, j, k);
    }
  }

  /**
   * Without that condition the numbering can collide: three similar columns
   * labelled "A", "A" and "A (2)" come out as "A", "A (2)", "A (2)".
   */
  lemma NumberingCollision(headers: seq<string>)
    requires headers == ["A", "A", "A (2)"]
    ensures Labelled(headers, {}, 3) == ["A", "A (2)", "A (2)"]
  {
    assert NatToString(2) == "2";
    assert headers[0] != "A (2)" && headers[1] != "A (2)" && headers[2] != "A";
    assert KeptCount(headers, {}, "A", 1) == 1;
    assert KeptCount(headers, {}, "A", 2) == 2;
    assert KeptCount(headers, {}, "A (2)", 2) == 0;
    assert KeptCount(headers, {}, "A (2)", 3) == 1;
    assert FinalLabel("A", 2) == "A (2)";
    assert Labelled(headers, {}, 1) == ["A"];
    assert Labelled(headers, {}, 2) == ["A", "A (2)"];
  }

  /**
   * Three columns with one label and fills 0.8, 0.75 and 0.1: the 0.1 column
   * is below half of the best fill and is dropped, and the other two are
   * labelled "X" and "X (2)".
   */
  lemma DedupExample(headers: seq<string>, fills: seq<real>)
    requires headers == ["X", "X", "X"] && fills == [0.8, 0.75, 0.1]
    ensures DropSet(headers, fills) == {2}
    ensures Labelled(headers, DropSet(headers, fills), 3) == ["X", "X (2)"]
  {
    DedupExampleDrops(headers, "X", fills);
    DedupExampleLabels(headers);
  }

  lemma DedupExampleDrops<L>(headers: seq<L>, x: L, fills: seq<real>)
    requires headers == [x, x, x] && fills == [0.8, 0.75, 0.1]
    ensures DropSet(headers, fills) == {2}
  {
    forall p: nat ensures p in DropSet(headers, fills) <==> p == 2 {
      if p < 3 {
        DedupExampleDropped(headers, x, fills, p);
      }
    }
  }

  /** In the example, a position is dropped exactly when its fill is below 0.4, half of the best. */
  lemma DedupExampleDropped<L>(headers: seq<L>, x: L, fills: seq<real>, p: nat)
    requires headers == [x, x, x] && fills == [0.8, 0.75, 0.1] && p < 3
    ensures Dropped(headers, fills, p) <==> p == 2
  {
    DedupExampleGroupBest(headers, x, fills, p);
    if p == 2 {
      assert fills[p] == 0.1;
    } else {
      assert fills[p] >= 0.75;
    }
  }

  /** Every position of the example shares its label with all three and has best fill 0.8. */
  lemma DedupExampleGroupBest<L>(headers: seq<L>, x: L, fills: seq<real>, p: nat)
    requires headers == [x, x, x] && fills == [0.8, 0.75, 0.1] && p < 3
    ensures |Positions(headers, headers[p], |headers|)| == 3 && GroupBest(headers, fills, p) == 0.8
  {
    DedupExamplePositions(headers, x);
    DedupExampleBest(fills);
    assert headers[p] == x;
  }

  /** Three equal labels form one group of all three positions. */
  lemma DedupExamplePositions<L>(headers: seq<L>, x: L)
    requires headers == [x, x, x]
    ensures Positions(headers, x, 3) == [0, 1, 2]
  {
    assert Positions(headers, x, 1) == [0];
    assert Positions(headers, x, 2) == [0, 1];
  }

  /** The best of the fills 0.8, 0.75 and 0.1 is 0.8. */
  lemma DedupExampleBest(fills: seq<real>)
    requires fills == [0.8, 0.75, 0.1]
    ensures MaxOf(fills, [0, 1, 2]) == 0.8
  {
    assert [0, 1, 2][..2] == [0, 1] && [0, 1][..1] == [0];
  }

  lemma DedupExampleLabels(headers: seq<string>)
    requires headers == ["X", "X", "X"]
    ensures Labelled(headers, {2}, 3) == ["X", "X (2)"]
  {
    assert KeptCount(headers, {2}, "X", 1) == 1;
    assert KeptCount(headers, {2}, "X", 2) == 2;
    assert FinalLabel("X", 2) == "X (2)" by {
      assert NatToString(2) == "2";
    }
    assert Labelled(headers, {2}, 1) == ["X"];
    assert Labelled(headers, {2}, 2) == ["X", "X (2)"];
  }
}
