/** The sentinel-terminated register tables of the MxL5007T driver (src/mxl5007t.c:71-195, :454-466). */
module RegTables {
  import opened Bytes
  import opened Errno
  import opened Registers

  /** struct reg_pair_t */
  datatype Pair = Pair(reg: byte, val: Reg)

  const END: Pair := Pair(0, {})

  /** The number of entries in front of the sentinel. */
  function Len(s: seq<Pair>): (n: nat)
    ensures n <= |s|
    ensures n < |s| ==> s[n] == END
    ensures forall i :: 0 <= i < n ==> s[i] != END
  {
    if s == [] || s[0] == END then 0 else 1 + Len(s[1..])
  }

  predicate Terminated(s: seq<Pair>) {
    Len(s) < |s|
  }

  function Entries(s: seq<Pair>): seq<Pair> {
    s[..Len(s)]
  }

  function Column(s: seq<Pair>): seq<byte> {
    seq(|s|, i requires 0 <= i < |s| => s[i].reg)
  }

  lemma ColumnTells(s: seq<Pair>)
    ensures |Column(s)| == |s| && forall i :: 0 <= i < |s| ==> s[i].reg == Column(s)[i]
  {
  }

  lemma LenIs(s: seq<Pair>, n: nat)
    requires n < |s| && s[n] == END && forall i :: 0 <= i < n ==> s[i] != END
    ensures Len(s) == n
  {
  }

  /** The value a table gives to a register, or `none`. */
  function Lookup(s: seq<Pair>, reg: byte, none: Reg): Reg {
    if s == [] then none
    else if s[0].reg == reg then s[0].val
    else Lookup(s[1..], reg, none)
  }

  lemma {:induction false} LookupAbsent(s: seq<Pair>, reg: byte, none: Reg)
    requires forall i :: 0 <= i < |s| ==> s[i].reg != reg
    ensures Lookup(s, reg, none) == none
  {
    if s != [] {
      LookupAbsent(s[1..], reg, none);
    }
  }

  // ---------- set_reg_bits ----------

  function SetOne(p: Pair, reg: byte, mask: Reg, val: Reg): Pair {
    if p.reg == reg then Pair(reg, (p.val - mask) + val) else p
  }

  /** Every entry for the register gets the masked bits replaced; the rest of the array stays. */
  function SetBits(s: seq<Pair>, reg: byte, mask: Reg, val: Reg): seq<Pair> {
    seq(|s|, i requires 0 <= i < |s| => if i < Len(s) then SetOne(s[i], reg, mask, val) else s[i])
  }

  method SetRegBits(t: array<Pair>, reg: byte, mask: Reg, val: Reg)
    requires Terminated(t[..])
    modifies t
    ensures t[..] == SetBits(old(t[..]), reg, mask, val)
  {
    ghost var s := t[..];
    var i := 0;
    while t[i] != END
      invariant 0 <= i <= Len(s) < |s| == t.Length
      invariant t[i..] == s[i..]
      invariant forall k :: 0 <= k < i ==> t[k] == SetOne(s[k], reg, mask, val)
      decreases Len(s) - i
    {
      assert t[i] == t[i..][0] == s[i];
      assert t[i + 1..] == t[i..][1..] == s[i + 1..];
      if t[i].reg == reg {
        t[i] := Pair(reg, t[i].val - mask);
        t[i] := Pair(reg, t[i].val + val);
      }
      i := i + 1;
    }
    assert t[i] == t[i..][0] == s[i];
    forall k | 0 <= k < |s| ensures t[k] == SetBits(s, reg, mask, val)[k] {
      if k >= i {
        assert t[k] == t[i..][k - i] == s[k];
      }
    }
  }

  /** The registers of a table and its end stay where they are, and the named register gets its bits. */
  lemma SetBitsKeepsColumn(s: seq<Pair>, reg: byte, mask: Reg, val: Reg)
    requires Terminated(s) && (reg != 0 || val != {})
    ensures var t := SetBits(s, reg, mask, val);
      Len(t) == Len(s) && Terminated(t) && Column(t) == Column(s)
  {
    LenIs(SetBits(s, reg, mask, val), Len(s));
  }

  lemma {:induction false} SetBitsLooksUp(s: seq<Pair>, reg: byte, mask: Reg, val: Reg, q: byte, none: Reg)
    requires Terminated(s) && reg != 0
    ensures Entries(SetBits(s, reg, mask, val)) == SetEntries(Entries(s), reg, mask, val)
    ensures Lookup(Entries(SetBits(s, reg, mask, val)), q, none) ==
      if q == reg && (exists i :: 0 <= i < Len(s) && s[i].reg == reg) then (Lookup(Entries(s), q, none) - mask) + val
      else Lookup(Entries(s), q, none)
  {
    SetBitsKeepsColumn(s, reg, mask, val);
    SetEntriesLooksUp(Entries(s), reg, mask, val, q, none);
    assert (exists i :: 0 <= i < Len(s) && s[i].reg == reg)
      <==> (exists i :: 0 <= i < |Entries(s)| && Entries(s)[i].reg == reg) by {
      if i :| 0 <= i < Len(s) && s[i].reg == reg {
        assert Entries(s)[i].reg == reg;
      }
      if i :| 0 <= i < |Entries(s)| && Entries(s)[i].reg == reg {
        assert s[i].reg == reg;
      }
    }
  }

  function SetEntries(e: seq<Pair>, reg: byte, mask: Reg, val: Reg): seq<Pair> {
    seq(|e|, i requires 0 <= i < |e| => SetOne(e[i], reg, mask, val))
  }

  lemma {:induction false} SetEntriesLooksUp(e: seq<Pair>, reg: byte, mask: Reg, val: Reg, q: byte, none: Reg)
    ensures Lookup(SetEntries(e, reg, mask, val), q, none) ==
      if q == reg && (exists i :: 0 <= i < |e| && e[i].reg == reg) then (Lookup(e, q, none) - mask) + val
      else Lookup(e, q, none)
  {
    if e != [] {
      SetEntriesLooksUp(e[1..], reg, mask, val, q, none);
      assert SetEntries(e, reg, mask, val)[1..] == SetEntries(e[1..], reg, mask, val);
      if e[0].reg != reg {
        assert (exists i :: 0 <= i < |e| && e[i].reg == reg)
          <==> (exists i :: 0 <= i < |e[1..]| && e[1..][i].reg == reg) by {
          if i :| 0 <= i < |e| && e[i].reg == reg {
            assert e[1..][i - 1].reg == reg;
          }
          if i :| 0 <= i < |e[1..]| && e[1..][i].reg == reg {
            assert e[i + 1].reg == reg;
          }
        }
      }
    }
  }

  // ---------- copy_reg_bits ----------

  /** The two-pointer walk: e is what is left of table 1, r what is left of table 2. */
  function Walk(e: seq<Pair>, r: seq<Pair>): (w: seq<Pair>)
    ensures |w| == |r|
    decreases |e| + |r|
  {
    if e == [] || r == [] then r
    else if e[0].reg != r[0].reg then [r[0]] + Walk(e, r[1..])
    else Walk(e[1..], [Pair(r[0].reg, e[0].val)] + r[1..])
  }

  method CopyRegBits(t1: array<Pair>, t2: array<Pair>)
    requires t1 != t2 && Terminated(t1[..]) && Terminated(t2[..])
    modifies t2
    ensures t2[..] == Walk(Entries(t1[..]), Entries(old(t2[..]))) + old(t2[..])[Len(old(t2[..]))..]
  {
    hide Walk, Len;
    ghost var s1, s2 := t1[..], t2[..];
    ghost var n1, n2 := Len(s1), Len(s2);
    var i, j := 0, 0;
    while t1[i] != END
      invariant 0 <= i <= n1 && 0 <= j <= n2 && t1[..] == s1
      invariant t2[n2..] == s2[n2..] && forall k :: j <= k < n2 ==> t2[k] != END
      invariant t2[..j] + Walk(s1[i..n1], t2[j..n2]) == Walk(s1[..n1], s2[..n2])
      decreases n1 - i
    {
      ghost var e := s1[i..n1];
      assert t2[n2] == t2[n2..][0] && e[0] == s1[i];
      j := CopyOne(t1[i], t2, j, n2, e);
      assert e[1..] == s1[i + 1..n1];
      i := i + 1;
    }
    assert s1[i..n1] == [];
    WalkEnds([], t2[j..n2]);
    InThree(t2[..], j, n2);
  }

  lemma InThree(s: seq<Pair>, j: nat, n: nat)
    requires j <= n <= |s|
    ensures s == s[..j] + s[j..n] + s[n..]
  {
  }

  /** The inner loop: from its present place on, table 2 is searched for the register of one entry of table 1. */
  method CopyOne(p: Pair, t2: array<Pair>, from: nat, ghost n2: nat, ghost e: seq<Pair>) returns (j: nat)
    requires from <= n2 < t2.Length && t2[n2] == END && forall k :: from <= k < n2 ==> t2[k] != END
    requires e != [] && e[0] == p != END
    modifies t2
    ensures from <= j <= n2 && t2[n2..] == old(t2[n2..]) && forall k :: j <= k < n2 ==> t2[k] != END
    ensures t2[..j] + Walk(e[1..], t2[j..n2]) == old(t2[..from] + Walk(e, t2[from..n2]))
  {
    hide Walk;
    j := from;
    while t2[j] != END
      invariant from <= j <= n2 && t2[..] == old(t2[..])
      invariant t2[..j] + Walk(e, t2[j..n2]) == old(t2[..from] + Walk(e, t2[from..n2]))
      decreases n2 - j
    {
      WalkOnce(e, t2[j..n2], t2[..j]);
      assert t2[j..n2][1..] == t2[j + 1..n2];
      if p.reg != t2[j].reg {
        assert t2[..j] + [t2[j..n2][0]] == t2[..j + 1];
        j := j + 1;
        continue;
      }
      ghost var changed := [Pair(t2[j].reg, p.val)] + t2[j + 1..n2];
      t2[j] := Pair(t2[j].reg, p.val);
      assert t2[j..n2] == changed;
      return;
    }
    WalkEnds(e, t2[j..n2]);
    WalkEnds(e[1..], t2[j..n2]);
  }

  lemma WalkOnce(e: seq<Pair>, r: seq<Pair>, front: seq<Pair>)
    requires e != [] && r != []
    ensures e[0].reg != r[0].reg ==> front + Walk(e, r) == (front + [r[0]]) + Walk(e, r[1..])
    ensures e[0].reg == r[0].reg ==> Walk(e, r) == Walk(e[1..], [Pair(r[0].reg, e[0].val)] + r[1..])
  {
  }

  lemma WalkEnds(e: seq<Pair>, r: seq<Pair>)
    requires e == [] || r == []
    ensures Walk(e, r) == r
  {
  }

  // ---------- when the walk is an override ----------

  /** Table 2 with the values of table 1 wherever it knows the register. */
  function Override(e: seq<Pair>, r: seq<Pair>): seq<Pair> {
    seq(|r|, m requires 0 <= m < |r| => Pair(r[m].reg, Lookup(e, r[m].reg, r[m].val)))
  }

  /** How many entries of table 1 the walk finds before it runs off the end of table 2. */
  function Matched(e: seq<Pair>, r: seq<Pair>): (k: nat)
    ensures k <= |e|
    decreases |e| + |r|
  {
    if e == [] || r == [] then 0
    else if e[0].reg != r[0].reg then Matched(e, r[1..])
    else 1 + Matched(e[1..], r)
  }

  predicate Distinct(e: seq<Pair>) {
    forall i, j :: 0 <= i < j < |e| ==> e[i].reg != e[j].reg
  }

  predicate Knows(e: seq<Pair>, reg: byte) {
    exists i :: 0 <= i < |e| && e[i].reg == reg
  }

  lemma {:induction false} LookupHit(e: seq<Pair>, i: nat, none: Reg)
    requires i < |e| && Distinct(e)
    ensures Lookup(e, e[i].reg, none) == e[i].val
  {
    if i > 0 {
      assert e[0].reg != e[i].reg;
      LookupHit(e[1..], i - 1, none);
    }
  }

  lemma {:induction false} MatchedAreKnown(e: seq<Pair>, r: seq<Pair>, i: nat)
    requires i < Matched(e, r)
    ensures Knows(r, e[i].reg)
    decreases |e| + |r|
  {
    if e[0].reg != r[0].reg {
      MatchedAreKnown(e, r[1..], i);
      var k :| 0 <= k < |r[1..]| && r[1..][k].reg == e[i].reg;
      assert r[k + 1].reg == e[i].reg;
    } else if i == 0 {
      assert r[0].reg == e[0].reg;
    } else {
      MatchedAreKnown(e[1..], r, i - 1);
    }
  }

  /** Entry by entry: the walk copies exactly the entries of table 1 that it finds. */
  lemma {:induction false} WalkAt(e: seq<Pair>, r: seq<Pair>, m: nat)
    requires Distinct(e) && Distinct(r) && m < |r|
    ensures Walk(e, r)[m] == Pair(r[m].reg, Lookup(e[..Matched(e, r)], r[m].reg, r[m].val))
    decreases |e| + |r|
  {
    var k := Matched(e, r);
    if e == [] {
    } else if e[0].reg != r[0].reg {
      assert Matched(e, r[1..]) == k;
      if m == 0 {
        forall i | 0 <= i < k ensures e[..k][i].reg != r[0].reg {
          MatchedAreKnown(e, r[1..], i);
          var j :| 0 <= j < |r[1..]| && r[1..][j].reg == e[i].reg;
          assert r[j + 1].reg == e[i].reg;
        }
        LookupAbsent(e[..k], r[0].reg, r[0].val);
      } else {
        assert Distinct(r[1..]);
        WalkAt(e, r[1..], m - 1);
      }
    } else {
      var q := [Pair(r[0].reg, e[0].val)] + r[1..];
      SameColumn(e[1..], r, q);
      assert Distinct(q) && Distinct(e[1..]);
      WalkAt(e[1..], q, m);
      assert e[..k][1..] == e[1..][..k - 1];
      if m == 0 {
        var found := e[1..][..k - 1];
        forall i | 0 <= i < |found| ensures found[i].reg != r[0].reg {
          assert found[i] == e[i + 1];
        }
        LookupAbsent(found, r[0].reg, e[0].val);
      } else {
        assert e[0].reg != r[m].reg;
      }
    }
  }

  lemma {:induction false} SameColumn(e: seq<Pair>, r: seq<Pair>, q: seq<Pair>)
    requires |r| == |q| && forall i :: 0 <= i < |r| ==> r[i].reg == q[i].reg
    ensures Matched(e, r) == Matched(e, q)
    decreases |e| + |r|
  {
    if e != [] && r != [] {
      if e[0].reg != r[0].reg {
        SameColumn(e, r[1..], q[1..]);
      } else {
        SameColumn(e[1..], r, q);
      }
    }
  }

  /** Nothing was lost: an entry the walk did not find is unknown to table 2, or already has its value there. */
  ghost predicate NothingLost(e: seq<Pair>, r: seq<Pair>) {
    forall i, m :: Matched(e, r) <= i < |e| && 0 <= m < |r| && e[i].reg == r[m].reg ==> e[i].val == r[m].val
  }

  lemma {:induction false} LookupSplit(e: seq<Pair>, k: nat, reg: byte, none: Reg)
    requires Distinct(e) && k <= |e|
    ensures Lookup(e, reg, none) == Lookup(e[..k], reg, Lookup(e[k..], reg, none))
  {
    if k > 0 {
      LookupSplit(e[1..], k - 1, reg, none);
      assert e[..k][1..] == e[1..][..k - 1] && e[1..][k - 1..] == e[k..];
    }
  }

  /** The walk gives the overridden table exactly if nothing was lost. */
  lemma CopyIsOverride(e: seq<Pair>, r: seq<Pair>)
    requires Distinct(e) && Distinct(r)
    ensures Walk(e, r) == Override(e, r) <==> NothingLost(e, r)
  {
    var k := Matched(e, r);
    forall m | 0 <= m < |r|
      ensures Walk(e, r)[m] == Override(e, r)[m] <==>
        forall i :: k <= i < |e| && e[i].reg == r[m].reg ==> e[i].val == r[m].val
    {
      CopyAt(e, r, m);
    }
    if Walk(e, r) == Override(e, r) {
      forall i, m | k <= i < |e| && 0 <= m < |r| && e[i].reg == r[m].reg ensures e[i].val == r[m].val {
        assert Walk(e, r)[m] == Override(e, r)[m];
      }
    }
  }

  lemma CopyAt(e: seq<Pair>, r: seq<Pair>, m: nat)
    requires Distinct(e) && Distinct(r) && m < |r|
    ensures Walk(e, r)[m] == Override(e, r)[m] <==>
      forall i :: Matched(e, r) <= i < |e| && e[i].reg == r[m].reg ==> e[i].val == r[m].val
  {
    hide Walk, Matched, Lookup;
    var k := Matched(e, r);
    var reg, none := r[m].reg, r[m].val;
    WalkAt(e, r, m);
    if i :| k <= i < |e| && e[i].reg == reg {
      LookupBehind(e, k, i, none);
    } else {
      LookupInFront(e, k, reg, none);
    }
  }

  lemma LookupBehind(e: seq<Pair>, k: nat, i: nat, none: Reg)
    requires Distinct(e) && k <= i < |e|
    ensures Lookup(e[..k], e[i].reg, none) == none && Lookup(e, e[i].reg, none) == e[i].val
  {
    LookupHit(e, i, none);
    LookupAbsent(e[..k], e[i].reg, none);
  }

  lemma LookupInFront(e: seq<Pair>, k: nat, reg: byte, none: Reg)
    requires Distinct(e) && k <= |e| && forall i :: k <= i < |e| ==> e[i].reg != reg
    ensures Lookup(e, reg, none) == Lookup(e[..k], reg, none)
  {
    LookupSplit(e, k, reg, none);
    LookupAbsent(e[k..], reg, none);
  }

  /** The registers of column c occur in column d in the same order. */
  predicate InOrder(c: seq<byte>, d: seq<byte>)
    decreases |d|
  {
    c == [] || (d != [] && (if c[0] == d[0] then InOrder(c[1..], d[1..]) else InOrder(c, d[1..])))
  }

  /** That is exactly when the walk finds every entry, so that nothing can be lost, whatever the values are. */
  lemma {:induction false} InOrderIsMatched(e: seq<Pair>, r: seq<Pair>)
    requires Distinct(e)
    ensures Matched(e, r) == |e| <==> InOrder(Column(e), Column(r))
    decreases |e| + |r|
  {
    if e != [] && r != [] {
      assert Column(r)[1..] == Column(r[1..]) && Column(e)[1..] == Column(e[1..]);
      if e[0].reg == r[0].reg {
        InOrderIsMatched(e[1..], r[1..]);
        if |e| > 1 {
          assert e[1].reg != e[0].reg;
        }
      } else {
        InOrderIsMatched(e, r[1..]);
      }
    }
  }

  /** Inserting registers into a column keeps the order. */
  lemma {:induction false} InsertedIsInOrder(p: seq<byte>, m: seq<byte>, q: seq<byte>)
    requires q != [] ==> q[0] !in m
    ensures InOrder(p + q, p + m + q)
  {
    if p == [] {
      assert p + q == q && p + m + q == m + q;
      TailIsInOrder(m, q);
    } else {
      InsertedIsInOrder(p[1..], m, q);
      assert (p + q)[0] == (p + m + q)[0];
      assert (p + q)[1..] == p[1..] + q && (p + m + q)[1..] == p[1..] + m + q;
    }
  }

  lemma {:induction false} TailIsInOrder(m: seq<byte>, q: seq<byte>)
    requires q != [] ==> q[0] !in m
    ensures InOrder(q, m + q)
  {
    if m == [] {
      assert m + q == q;
      SameIsInOrder(q);
    } else {
      TailIsInOrder(m[1..], q);
      assert (m + q)[1..] == m[1..] + q;
    }
  }

  lemma {:induction false} SameIsInOrder(q: seq<byte>)
    ensures InOrder(q, q)
  {
    if q != [] {
      SameIsInOrder(q[1..]);
    }
  }

  lemma {:induction false} OverrideLooksUp(e: seq<Pair>, r: seq<Pair>, q: byte, none: Reg)
    requires Knows(r, q)
    ensures Lookup(Override(e, r), q, none) == Lookup(e, q, Lookup(r, q, none))
  {
    if r[0].reg != q {
      var i :| 0 <= i < |r| && r[i].reg == q;
      assert r[1..][i - 1].reg == q;
      OverrideLooksUp(e, r[1..], q, none);
      assert Override(e, r)[1..] == Override(e, r[1..]);
    }
  }

  /** A register both tables have takes its value from the first one. */
  lemma OverrideTakesFirst(e: seq<Pair>, r: seq<Pair>, q: byte, none: Reg)
    requires Knows(e, q) && Knows(r, q)
    ensures Lookup(Override(e, r), q, none) == Lookup(e, q, none)
  {
    OverrideLooksUp(e, r, q, none);
    KnownLooksUp(e, q, Lookup(r, q, none), none);
  }

  lemma {:induction false} KnownLooksUp(e: seq<Pair>, q: byte, a: Reg, b: Reg)
    requires Knows(e, q)
    ensures Lookup(e, q, a) == Lookup(e, q, b)
  {
    if e[0].reg != q {
      var i :| 0 <= i < |e| && e[i].reg == q;
      assert e[1..][i - 1].reg == q;
      KnownLooksUp(e[1..], q, a, b);
    }
  }

  /** Out of order, values are lost: register 1 is behind register 2 in the first table only. */
  lemma CopyCanLose()
    ensures var e, r := [Pair(2, {1}), Pair(1, {0})], [Pair(1, {}), Pair(2, {})];
      Walk(e, r) == [Pair(1, {}), Pair(2, {1})] && Override(e, r) == [Pair(1, {0}), Pair(2, {1})]
  {
    var e, r := [Pair(2, {1}), Pair(1, {0})], [Pair(1, {}), Pair(2, {})];
    assert r[1..] == [Pair(2, {})] && e[1..] == [Pair(1, {0})];
    assert [Pair(2, {1})] + r[1..][1..] == [Pair(2, {1})];
    assert Walk(e[1..], [Pair(2, {1})]) == [Pair(2, {1})];
    assert Lookup(e, 1, {}) == {0} && Lookup(e, 2, {}) == {1};
  }

  // ---------- mxl5007t_write_regs ----------

  /** The chip's registers after the writes have landed. */
  function Landed(chip: map<byte, Reg>, e: seq<Pair>): map<byte, Reg> {
    if e == [] then chip else Landed(chip, e[..|e| - 1])[e[|e| - 1].reg := e[|e| - 1].val]
  }

  /** A register that is in the table once takes its value from there. */
  lemma {:induction false} LandedAt(chip: map<byte, Reg>, e: seq<Pair>, i: nat)
    requires i < |e| && forall j :: 0 <= j < |e| && j != i ==> e[j].reg != e[i].reg
    ensures e[i].reg in Landed(chip, e) && Landed(chip, e)[e[i].reg] == e[i].val == Lookup(e, e[i].reg, {})
  {
    var n := |e| - 1;
    LookupOnce(e, i);
    if i < n {
      LandedAt(chip, e[..n], i);
    }
  }

  /** A table with distinct registers puts all its values into the chip. */
  lemma LandedIsTable(chip: map<byte, Reg>, e: seq<Pair>, q: byte)
    requires Distinct(e) && Knows(e, q)
    ensures q in Landed(chip, e) && Landed(chip, e)[q] == Lookup(e, q, {})
  {
    var i :| 0 <= i < |e| && e[i].reg == q;
    LandedAt(chip, e, i);
  }

  lemma {:induction false} LookupOnce(e: seq<Pair>, i: nat)
    requires i < |e| && forall j :: 0 <= j < i ==> e[j].reg != e[i].reg
    ensures Lookup(e, e[i].reg, {}) == e[i].val
  {
    if i > 0 {
      LookupOnce(e[1..], i - 1);
    }
  }

  function Works(works: nat -> bool, n: nat): bool {
    works(n)
  }

  /** Writes the entries in order until one write fails; n is how many were tried. */
  method WriteRegs(table: seq<Pair>, chip: map<byte, Reg>, works: nat -> bool)
    returns (ret: int, n: nat, now: map<byte, Reg>)
    requires Terminated(table)
    ensures n <= Len(table)
    ensures ret == 0 ==>
      && n == Len(table) && (forall k :: 0 <= k < n ==> Works(works, k))
      && now == Landed(chip, Entries(table))
    ensures ret != 0 ==>
      && ret == -121 && n > 0 && !Works(works, n - 1)
      && (forall k :: 0 <= k < n - 1 ==> Works(works, k)) && now == Landed(chip, table[..n - 1])
  {
    ret, n, now := 0, 0, chip;
    while ret == 0 && table[n] != END
      invariant n <= Len(table)
      invariant ret == 0 ==> (forall k :: 0 <= k < n ==> Works(works, k)) && now == Landed(chip, table[..n])
      invariant ret != 0 ==>
        && ret == EREMOTEIO && n > 0 && !Works(works, n - 1)
        && (forall k :: 0 <= k < n - 1 ==> Works(works, k)) && now == Landed(chip, table[..n - 1])
      decreases Len(table) - n
    {
      if works(n) {
        now := now[table[n].reg := table[n].val];
        assert table[..n + 1][..n] == table[..n];
      } else {
        assert !Works(works, n);
        ret := EREMOTEIO;
      }
      n := n + 1;
    }
  }
}
