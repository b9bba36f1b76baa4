/**
 Admission errors: a kind and the path of the field at fault. Also the rule
 that both webhooks apply to a list of option strings.
 */
module FieldErrors {
  import opened Model

  datatype Segment = Child(name: string) | At(index: nat)

  type Path = seq<Segment>

  datatype ErrorKind = Required | Invalid | Duplicate | Forbidden | NotSupported

  datatype FieldError = FieldError(kind: ErrorKind, path: Path)

  /** Entry `i` is reported when it is empty, and otherwise when it repeats an earlier entry. */
  function EntryError(items: seq<string>, i: nat, path: Path): seq<FieldError>
    requires i < |items|
  {
    if items[i] == "" then [FieldError(Invalid, path + [At(i)])]
    else if items[i] in items[..i] then [FieldError(Duplicate, path + [At(i)])]
    else []
  }

  /** The errors of the first `n` entries, in order. */
  function EntryErrors(items: seq<string>, n: nat, path: Path): seq<FieldError>
    requires n <= |items|
  {
    if n == 0 then [] else EntryErrors(items, n - 1, path) + EntryError(items, n - 1, path)
  }

  ghost function NonEmpty(items: seq<string>): set<string> {
    set x | x in items && x != ""
  }

  /** There are exactly as many errors as entries beyond the distinct non-empty ones. */
  lemma {:induction false} ErrorsCountExcessEntries(items: seq<string>, n: nat, path: Path)
    requires n <= |items|
    ensures |EntryErrors(items, n, path)| == n - |NonEmpty(items[..n])|
  {
    if n == 0 {
    } else {
      ErrorsCountExcessEntries(items, n - 1, path);
      var x := items[n - 1];
      assert items[..n] == items[..n - 1] + [x];
      if x == "" || x in items[..n - 1] {
        assert NonEmpty(items[..n]) == NonEmpty(items[..n - 1]);
      } else {
        assert NonEmpty(items[..n]) == NonEmpty(items[..n - 1]) + {x};
      }
    }
  }

  /** Hence there is no error exactly when the entries are non-empty and pairwise distinct. */
  lemma {:induction false} NoEntryErrors(items: seq<string>, n: nat, path: Path)
    requires n <= |items|
    ensures EntryErrors(items, n, path) == [] <==> "" !in items[..n] && Distinct(items[..n])
  {
    hide Distinct;
    if n == 0 {
      NoneIsDistinct<string>();
      assert items[..0] == [];
    } else {
      NoEntryErrors(items, n - 1, path);
      assert items[..n] == items[..n - 1] + [items[n - 1]];
      DistinctSnoc(items[..n - 1], items[n - 1]);
    }
  }

  /** Every reported path is that of an empty or repeated entry, and every such entry is reported once. */
  lemma {:induction false} ErrorAtEntry(items: seq<string>, n: nat, path: Path, i: nat)
    requires n <= |items| && i < n
    ensures FieldError(Invalid, path + [At(i)]) in EntryErrors(items, n, path) <==> items[i] == ""
    ensures FieldError(Duplicate, path + [At(i)]) in EntryErrors(items, n, path)
       <==> items[i] != "" && items[i] in items[..i]
  {
    ErrorPaths(items, n - 1, path);
    assert (path + [At(i)])[|path|] == At(i);
    assert (path + [At(n - 1)])[|path|] == At(n - 1);
    if i < n - 1 {
      ErrorAtEntry(items, n - 1, path, i);
    }
  }

  lemma {:induction false} ErrorPaths(items: seq<string>, n: nat, path: Path)
    requires n <= |items|
    ensures forall e | e in EntryErrors(items, n, path) :: exists i | 0 <= i < n :: e.path == path + [At(i)]
  {
    if n > 0 {
      ErrorPaths(items, n - 1, path);
    }
  }

  /** What is wrong with entry `i`: it is empty, or it repeats an earlier entry that is not. */
  ghost predicate EntryDefect(items: seq<string>, i: nat, kind: ErrorKind)
    requires i < |items|
  {
    if items[i] == "" then kind == Invalid
    else kind == Duplicate && exists j | 0 <= j < i :: items[j] == items[i]
  }

  /** The defects are reported, at the paths of their entries, and nothing else is. */
  lemma {:induction false} EntryErrorsExactly(items: seq<string>, n: nat, path: Path, e: FieldError)
    requires n <= |items|
    ensures e in EntryErrors(items, n, path) <==>
            exists i | 0 <= i < n :: e.path == path + [At(i)] && EntryDefect(items, i, e.kind)
  {
    if n > 0 {
      EntryErrorsExactly(items, n - 1, path, e);
      assert items[n - 1] in items[..n - 1] <==> exists j | 0 <= j < n - 1 :: items[j] == items[n - 1];
    }
  }

  /** Each error is about a different one of the first `n` places below a path of length `k`, in ascending order. */
  ghost predicate Ascending(errs: seq<FieldError>, k: nat, n: nat) {
    && (forall a | 0 <= a < |errs| :: k < |errs[a].path| && errs[a].path[k].At? && errs[a].path[k].index < n)
    && forall a, b | 0 <= a < b < |errs| :: errs[a].path[k].index < errs[b].path[k].index
  }

  lemma AscendingSnoc(errs: seq<FieldError>, k: nat, n: nat, e: FieldError)
    requires Ascending(errs, k, n) && k < |e.path| && e.path[k] == At(n)
    ensures Ascending(errs + [e], k, n + 1)
  {
  }

  lemma NothingAscends(k: nat)
    ensures Ascending([], k, 0)
  {
  }

  lemma AscendingOrNot(errs: seq<FieldError>, k: nat, n: nat, more: seq<FieldError>)
    requires Ascending(errs, k, n) && |more| <= 1
    requires forall e | e in more :: k < |e.path| && e.path[k] == At(n)
    ensures Ascending(errs + more, k, n + 1)
  {
    if more == [] {
      assert errs + more == errs;
    } else {
      assert more == [more[0]];
      AscendingSnoc(errs, k, n, more[0]);
    }
  }

  /** Entries are reported in their order, once each at most. */
  lemma {:induction false} EntryErrorsInOrder(items: seq<string>, n: nat, path: Path)
    requires n <= |items|
    ensures Ascending(EntryErrors(items, n, path), |path|, n)
  {
    if n > 0 {
      EntryErrorsInOrder(items, n - 1, path);
      assert (path + [At(n - 1)])[|path|] == At(n - 1);
      hide Ascending;
      AscendingOrNot(EntryErrors(items, n - 1, path), |path|, n - 1, EntryError(items, n - 1, path));
    }
  }

  /** The errors are about the places below a path of length `k`, in their order. */
  ghost predicate Rising(errs: seq<FieldError>, k: nat) {
    && (forall a | 0 <= a < |errs| :: k < |errs[a].path| && errs[a].path[k].At?)
    && forall a, b | 0 <= a < b < |errs| :: errs[a].path[k].index <= errs[b].path[k].index
  }

  lemma NothingRises(k: nat)
    ensures Rising([], k)
  {
  }

  lemma RisingConcat(xs: seq<FieldError>, ys: seq<FieldError>, k: nat, n: nat)
    requires Rising(xs, k) && forall e | e in xs :: k < |e.path| && e.path[k].At? && e.path[k].index < n
    requires forall e | e in ys :: k < |e.path| && e.path[k] == At(n)
    ensures Rising(xs + ys, k)
  {
    var all := xs + ys;
    forall a | 0 <= a < |all|
      ensures k < |all[a].path| && all[a].path[k].At?
      ensures if a < |xs| then all[a].path[k].index < n else all[a].path[k].index == n
    {
      assert if a < |xs| then all[a] in xs else all[a] in ys;
    }
    assert forall a | 0 <= a < |xs| :: all[a] == xs[a];
  }
}
