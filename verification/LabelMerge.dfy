/** Relinking a routine: the label table of an earlier version takes the entries of the new one
    (sr_i386/incr_link.c). Both tables are sorted by name. */
module LabelMerge {
  import opened Bytes
  import opened ObjFormat
  import opened ObjFile

  /** A label table entry; line pointer 0 stands for a label that is gone. */
  datatype LabEnt = LabEnt(name: Name, lnPtr: int, hasParms: bool)

  ghost predicate SortedLabels(t: seq<LabEnt>) {
    forall j, k :: 0 <= j < k < |t| ==> Less(t[j].name, t[k].name)
  }

  ghost predicate HasLabel(t: seq<LabEnt>, n: Name) {
    exists k :: 0 <= k < |t| && t[k].name == n
  }

  /** An old entry after the merge: what the new table says of its label, or nothing. */
  ghost predicate Merged(old_: LabEnt, now: LabEnt, t: seq<LabEnt>) {
    && now.name == old_.name
    && (forall k :: 0 <= k < |t| && t[k].name == old_.name ==> now.lnPtr == t[k].lnPtr && now.hasParms == t[k].hasParms)
    && (!HasLabel(t, old_.name) ==> now.lnPtr == 0 && now.hasParms == old_.hasParms)
  }

  /** Entries before `k` come before name `n`, and entry `k` does not: the label can only be there. */
  lemma OnlyThere(t: seq<LabEnt>, k: nat, n: Name)
    requires SortedLabels(t) && k <= |t|
    requires forall j :: 0 <= j < k ==> Less(t[j].name, n)
    requires k < |t| ==> Compare(n, t[k].name) <= 0
    ensures forall j :: 0 <= j < |t| && t[j].name == n ==> j == k
  {
    LessTotal(n, n);
    forall j | 0 <= j < |t| && t[j].name == n ensures j == k {
      if j > k {
        LessTotal(n, t[k].name);
      }
    }
  }

  /** One pass over both tables. */
  method MergeLabels(olbt: seq<LabEnt>, lbt: seq<LabEnt>) returns (r: seq<LabEnt>)
    requires SortedLabels(olbt) && SortedLabels(lbt)
    ensures |r| == |olbt| && forall i :: 0 <= i < |r| ==> Merged(olbt[i], r[i], lbt)
  {
    r := [];
    var k := 0;
    while |r| < |olbt|
      invariant |r| <= |olbt| && k <= |lbt|
      invariant forall i :: 0 <= i < |r| ==> Merged(olbt[i], r[i], lbt)
      invariant |r| < |olbt| ==> forall j :: 0 <= j < k ==> Less(lbt[j].name, olbt[|r|].name)
    {
      var e := olbt[|r|];
      var order := 1;
      while k < |lbt|
        invariant k <= |lbt| && forall j :: 0 <= j < k ==> Less(lbt[j].name, e.name)
      {
        order := Compare(e.name, lbt[k].name);
        LessTotal(e.name, lbt[k].name);
        if order <= 0 {
          break;
        }
        k := k + 1;
      }
      OnlyThere(lbt, k, e.name);
      var e' := if k < |lbt| && order == 0 then LabEnt(e.name, lbt[k].lnPtr, lbt[k].hasParms)
        else LabEnt(e.name, 0, e.hasParms);
      assert Merged(e, e', lbt);
      if |r| + 1 < |olbt| {
        forall j | 0 <= j < k ensures Less(lbt[j].name, olbt[|r| + 1].name) {
          LessTransitive(lbt[j].name, e.name, olbt[|r| + 1].name);
        }
      }
      r := r + [e'];
    }
  }
}
