/**
  The code pool of codeGenerator.py. The module-level `codes` list holds the
  codes that may still be handed out; `generate_codes_if_needed` rebuilds it
  from the `current_max` setting and the url table, and `get_code_for_new_url`
  takes one code out of it at a random position.
  The random draw is a parameter, the lock is left out (the model is the
  sequential intent), and every store access is a read or write of `Store.Db`.
 */
module CodePool {
  import opened Wrappers
  import opened Base62
  import Store
  import ByteOrder

  /** Codes added to the pool per generation. */
  const BatchSize: nat := 100000

  /** Below this many codes, a new code request regenerates the pool. */
  const LowWatermark: nat := 1000

  /** The setting that holds the highest counter encoded so far. */
  const CurrentMaxKey: string := "current_max"

  /** The module-level `codes` list, and the store it reads and writes. */
  datatype State = State(codes: seq<string>, db: Store.Db)

  /** The exceptions the two functions can raise. */
  datatype Error =
    | NotInList(code: string)  // `list.remove` of a value that is not in the list
    | EmptyRange               // `random.randint(0, -1)` on an empty pool

  /**
    The effect of one call: the state afterwards (the global `codes` keeps
    whatever was assigned to it, also when the call raises), and the value
    returned or the exception raised.
   */
  datatype Run<T> = Run(state: State, result: Result<T, Error>)

  // ----- lists of codes -----

  predicate NoDup(s: seq<string>)
  {
    forall i, j :: 0 <= i < j < |s| ==> s[i] != s[j]
  }

  /** `[int_to_base62(k) for k in range(lo, hi)]`. */
  function Encodings(lo: nat, hi: int): (r: seq<string>)
    ensures |r| == if hi <= lo then 0 else hi - lo
    decreases hi - lo
  {
    if hi <= lo then [] else Encodings(lo, hi - 1) + [Encode(hi - 1, DefaultLength)]
  }

  /** `list.remove(x)`: the first occurrence of `x` goes. */
  function RemoveFirst(s: seq<string>, x: string): (r: seq<string>)
    requires x in s
    ensures |r| == |s| - 1
  {
    if s[0] == x then s[1..] else [s[0]] + RemoveFirst(s[1..], x)
  }

  /** The elements of `s` that are not in `out`, in their original order. */
  function Without(s: seq<string>, out: set<string>): (r: seq<string>)
    ensures |r| <= |s|
  {
    if s == [] then []
    else
      var last := s[|s| - 1];
      Without(s[..|s| - 1], out) + (if last in out then [] else [last])
  }

  /**
    The removal loop of codeGenerator.py lines 25-27: each used code in turn is
    taken out of the list (its first occurrence only). The result is the list
    left over, and the first used code that was missing from it; at that code
    the loop raised and the remaining ones were not looked at.
   */
  function RemoveEach(codes: seq<string>, used: seq<string>): (r: (seq<string>, Option<string>))
    decreases |used|
  {
    if used == [] then (codes, None)
    else if used[0] in codes then RemoveEach(RemoveFirst(codes, used[0]), used[1..])
    else (codes, Some(used[0]))
  }

  // ----- generate_codes_if_needed -----

  function StoredMax(db: Store.Db): (m: int)
  {
    Store.GetSetting(db.local, CurrentMaxKey)
  }

  /** `current_max` after lines 15-17: an unset (or zero) setting counts as one batch. */
  function FirstMax(db: Store.Db): (m: int)
  {
    var stored := StoredMax(db);
    if stored == 0 then stored + BatchSize else stored
  }

  /**
    The stores on which `generate_codes_if_needed` returns or raises. From a
    counter of -2 downwards the list at line 21 is empty, so a used code makes
    `remove` raise before line 33; with no used code the extension range
    starts below 0, and the encoder never returns on a negative number.
   */
  predicate CanGenerate(db: Store.Db)
  {
    StoredMax(db) >= -1 || Used(db) != {}
  }

  /**
    `generate_codes_if_needed`: the pool becomes the encodings of
    `1..current_max` minus the used codes; when fewer than `LowWatermark`
    remain, one more batch is encoded after them; the counter is written back.
    A used code outside the list makes `remove` raise; `codes` then keeps the
    partly filtered list and nothing is written.
   */
  function GenerateCodesIfNeeded(s: State): (r: Run<()>)
    requires CanGenerate(s.db)
  {
    EmptyListMisses(s.db);
    var currentMax := FirstMax(s.db);
    var end := currentMax + 1;
    var listed := Encodings(1, end);
    var (codes, missing) := FilterUsed(listed, s.db);
    if missing.Some? then
      Run(State(codes, s.db), Failure(NotInList(missing.value)))
    else if |codes| < LowWatermark then
      var newMax := currentMax + BatchSize;
      Run(State(codes + Encodings(end, newMax + 1), Store.SetSetting(s.db, CurrentMaxKey, newMax)), Success(()))
    else
      Run(State(codes, Store.SetSetting(s.db, CurrentMaxKey, currentMax)), Success(()))
  }

  /**
    Lines 23-27: `get_url_codes`, then one `remove` per used code, in the
    order the codes come back; None when the url table is empty.
   */
  function FilterUsed(listed: seq<string>, db: Store.Db): (r: (seq<string>, Option<string>))
  {
    match Store.GetUrlCodes(db.local)
    case None => (listed, None)
    case Some(used) => RemoveEach(listed, used)
  }

  /** With a code in use, the removal loop over an empty list raises at once. */
  lemma EmptyListMisses(db: Store.Db)
    ensures Used(db) != {} ==> FilterUsed([], db).1.Some?
  {
    if Used(db) != {} {
      var used := Store.GetUrlCodes(db.local).value;
      assert used != [];
    }
  }

  /** A successful generation started from a counter of at least -1. */
  lemma SuccessNeedsCounter(s: State)
    requires CanGenerate(s.db)
    ensures GenerateCodesIfNeeded(s).result.Success? ==> StoredMax(s.db) >= -1
  {
    EmptyListMisses(s.db);
  }

  // ----- get_code_for_new_url -----

  /** Lines 45-46: the pool is regenerated when it holds fewer than `LowWatermark` codes. */
  function Replenish(s: State): (r: Run<()>)
    requires |s.codes| >= LowWatermark || CanGenerate(s.db)
  {
    if |s.codes| < LowWatermark then GenerateCodesIfNeeded(s) else Run(s, Success(()))
  }

  /**
    `get_code_for_new_url`: after replenishing, the code at a random index is
    removed from the pool and returned. The random draw is `choice`, reduced
    to the index range, so that every index can be chosen.
   */
  function GetCodeForNewUrl(s: State, choice: nat): (r: Run<string>)
    requires |s.codes| >= LowWatermark || CanGenerate(s.db)
  {
    var pre := Replenish(s);
    if pre.result.Failure? then
      Run(pre.state, Failure(pre.result.error))
    else
      var codes := pre.state.codes;
      if |codes| == 0 then
        Run(pre.state, Failure(EmptyRange))
      else
        var code := codes[choice % |codes|];
        Run(pre.state.(codes := RemoveFirst(codes, code)), Success(code))
  }

  /**
    What the pool promises between calls: no code twice, no code already
    bound to a link, and no empty code.
   */
  ghost predicate PoolInvariant(s: State)
  {
    && NoDup(s.codes)
    && (forall c :: c in s.codes ==> c !in s.db.local.url)
    && "" !in s.codes
  }

  // ----- lemmas about lists of codes -----

  /** Every listed code encodes a counter of the range. */
  lemma {:induction false} EncodingsMember(lo: nat, hi: int, c: string)
    requires c in Encodings(lo, hi)
    ensures exists k :: lo <= k < hi && c == Encode(k, DefaultLength)
    decreases hi - lo
  {
    if c == Encode(hi - 1, DefaultLength) {
      assert lo <= hi - 1 < hi;
    } else {
      assert c in Encodings(lo, hi - 1);
      EncodingsMember(lo, hi - 1, c);
    }
  }

  /** Encodings of two ranges with no counter in common share no code. */
  lemma EncodingsApart(lo: nat, hi: int, lo': nat, hi': int)
    requires hi <= lo'
    ensures forall c :: c in Encodings(lo, hi) ==> c !in Encodings(lo', hi')
  {
    forall c | c in Encodings(lo, hi)
      ensures c !in Encodings(lo', hi')
    {
      EncodingsMember(lo, hi, c);
      var k :| lo <= k < hi && c == Encode(k, DefaultLength);
      EncodingOutside(lo', hi', k);
    }
  }

  /** A counter outside the range has its encoding outside the list. */
  lemma EncodingOutside(lo: nat, hi: int, n: nat)
    requires n < lo || hi <= n
    ensures Encode(n, DefaultLength) !in Encodings(lo, hi)
  {
    if Encode(n, DefaultLength) in Encodings(lo, hi) {
      EncodingsMember(lo, hi, Encode(n, DefaultLength));
      var k :| lo <= k < hi && Encode(n, DefaultLength) == Encode(k, DefaultLength);
      EncodeInjective(k, n, DefaultLength);
    }
  }

  lemma {:induction false} EncodingsNoDup(lo: nat, hi: int)
    ensures NoDup(Encodings(lo, hi))
    decreases hi - lo
  {
    if hi > lo {
      var init, last := Encodings(lo, hi - 1), Encodings(hi - 1, hi);
      EncodingsNoDup(lo, hi - 1);
      assert NoDup(last);
      EncodingsApart(lo, hi - 1, hi - 1, hi);
      NoDupConcat(init, last);
      EncodingsSplit(lo, hi - 1, hi);
    }
  }

  lemma {:induction false} EncodingsNonEmpty(lo: nat, hi: int)
    ensures "" !in Encodings(lo, hi)
    decreases hi - lo
  {
    if hi > lo {
      EncodeNonEmpty(hi - 1, DefaultLength);
      EncodingsNonEmpty(lo, hi - 1);
    }
  }

  lemma {:induction false} EncodingsSplit(lo: nat, mid: nat, hi: int)
    requires lo <= mid <= hi
    ensures Encodings(lo, hi) == Encodings(lo, mid) + Encodings(mid, hi)
    decreases hi - mid
  {
    if mid < hi {
      EncodingsSplit(lo, mid, hi - 1);
      SnocSplit(Encodings(lo, hi - 1), Encodings(lo, mid), Encodings(mid, hi - 1), Encode(hi - 1, DefaultLength));
    }
  }

  lemma SnocSplit(init: seq<string>, a: seq<string>, bInit: seq<string>, x: string)
    requires init == a + bInit
    ensures init + [x] == a + (bInit + [x])
  {
  }

  /** Raising the upper end of the range only adds codes. */
  lemma EncodingsGrow(lo: nat, hi: int, hi': int)
    requires hi <= hi'
    ensures forall c :: c in Encodings(lo, hi) ==> c in Encodings(lo, hi')
  {
    if lo <= hi {
      EncodingsSplit(lo, hi, hi');
    }
  }

  lemma {:induction false} WithoutMember(s: seq<string>, out: set<string>, c: string)
    ensures c in Without(s, out) <==> c in s && c !in out
    decreases |s|
  {
    if s != [] {
      WithoutMember(s[..|s| - 1], out, c);
      assert s == s[..|s| - 1] + [s[|s| - 1]];
    }
  }

  lemma WithoutSnoc(t: seq<string>, x: string, out: set<string>)
    ensures Without(t + [x], out) == Without(t, out) + (if x in out then [] else [x])
  {
    assert (t + [x])[..|t|] == t;
  }

  lemma {:induction false} WithoutConcat(a: seq<string>, b: seq<string>, out: set<string>)
    ensures Without(a + b, out) == Without(a, out) + Without(b, out)
    decreases |b|
  {
    if b == [] {
      assert a + b == a;
    } else {
      var init, x := b[..|b| - 1], b[|b| - 1];
      assert b == init + [x];
      assert a + b == (a + init) + [x];
      WithoutSnoc(a + init, x, out);
      WithoutConcat(a, init, out);
      WithoutSnoc(init, x, out);
    }
  }

  lemma {:induction false} WithoutNothing(s: seq<string>, out: set<string>)
    requires forall c :: c in s ==> c !in out
    ensures Without(s, out) == s
    decreases |s|
  {
    if s != [] {
      assert forall c :: c in s[..|s| - 1] ==> c in s;
      WithoutNothing(s[..|s| - 1], out);
      assert s == s[..|s| - 1] + [s[|s| - 1]];
    }
  }

  lemma {:induction false} WithoutNoDup(s: seq<string>, out: set<string>)
    requires NoDup(s)
    ensures NoDup(Without(s, out))
    decreases |s|
  {
    if s != [] {
      var init, x := s[..|s| - 1], s[|s| - 1];
      assert NoDup(init) by {
        forall i, j | 0 <= i < j < |init|
          ensures init[i] != init[j]
        {
          assert init[i] == s[i] && init[j] == s[j];
        }
      }
      WithoutNoDup(init, out);
      if x !in out {
        WithoutMember(init, out, x);
        NoDupConcat(Without(init, out), [x]);
      }
    }
  }

  lemma {:induction false} WithoutTwice(s: seq<string>, out: set<string>, out': set<string>)
    ensures Without(Without(s, out), out') == Without(s, out + out')
    decreases |s|
  {
    if s != [] {
      var init, x := s[..|s| - 1], s[|s| - 1];
      WithoutTwice(init, out, out');
      if x in out {
        assert Without(s, out) == Without(init, out);
      } else {
        assert Without(s, out) == Without(init, out) + [x];
        WithoutSnoc(Without(init, out), x, out');
      }
    }
  }

  lemma NoDupConcat(a: seq<string>, b: seq<string>)
    requires NoDup(a) && NoDup(b)
    requires forall c :: c in a ==> c !in b
    ensures NoDup(a + b)
  {
    var ab := a + b;
    forall i, j | 0 <= i < j < |ab|
      ensures ab[i] != ab[j]
    {
      if i < |a| && j >= |a| {
        assert ab[i] in a && ab[j] in b;
      }
    }
  }

  /** `remove` drops exactly the element at the first index holding it. */
  lemma {:induction false} RemoveFirstAt(s: seq<string>, i: nat)
    requires i < |s|
    requires forall k :: 0 <= k < i ==> s[k] != s[i]
    ensures RemoveFirst(s, s[i]) == s[..i] + s[i + 1..]
    decreases i
  {
    if i == 0 {
      assert s[..0] + s[1..] == s[1..];
    } else {
      var t := s[1..];
      assert t[i - 1] == s[i];
      RemoveFirstAt(t, i - 1);
      assert RemoveFirst(s, s[i]) == [s[0]] + (t[..i - 1] + t[i..]);
      ConsSlices(s, i);
    }
  }

  lemma ConsSlices(s: seq<string>, i: nat)
    requires 0 < i < |s|
    ensures [s[0]] + (s[1..][..i - 1] + s[1..][i..]) == s[..i] + s[i + 1..]
  {
    assert s[1..][..i - 1] == s[1..i];
    assert s[1..][i..] == s[i + 1..];
    assert [s[0]] + s[1..i] == s[..i];
  }

  lemma RemoveFirstIsWithout(s: seq<string>, x: string)
    requires NoDup(s) && x in s
    ensures RemoveFirst(s, x) == Without(s, {x})
  {
    var i :| 0 <= i < |s| && s[i] == x;
    OccursOnce(s, i);
    RemoveFirstAt(s, i);
    WithoutAt(s, i);
  }

  lemma SplitAt(s: seq<string>, i: nat)
    requires i < |s|
    ensures s == s[..i] + ([s[i]] + s[i + 1..])
  {
  }

  lemma WithoutAt(s: seq<string>, i: nat)
    requires i < |s|
    requires s[i] !in s[..i] && s[i] !in s[i + 1..]
    ensures Without(s, {s[i]}) == s[..i] + s[i + 1..]
  {
    SplitAt(s, i);
    WithoutOne(s[..i], s[i], s[i + 1..]);
  }

  lemma WithoutOne(before: seq<string>, x: string, after: seq<string>)
    requires x !in before && x !in after
    ensures Without(before + ([x] + after), {x}) == before + after
  {
    assert Without([x] + after, {x}) == after by {
      WithoutConcat([x], after, {x});
      WithoutDropsOnly(x);
      WithoutNothing(after, {x});
    }
    assert Without(before, {x}) == before by {
      WithoutNothing(before, {x});
    }
    WithoutConcat(before, [x] + after, {x});
  }

  lemma WithoutDropsOnly(x: string)
    ensures Without([x], {x}) == []
  {
    assert [x][..0] == [];
  }

  /** In a list without duplicates, an element occurs neither before nor after its index. */
  lemma OccursOnce(s: seq<string>, i: nat)
    requires NoDup(s) && i < |s|
    ensures s[i] !in s[..i] && s[i] !in s[i + 1..]
    ensures forall k :: 0 <= k < i ==> s[k] != s[i]
  {
  }

  /**
    On lists without duplicates the removal loop raises exactly when some
    used code is not listed, and otherwise leaves the list minus the used codes.
   */
  lemma {:induction false} RemoveEachFilters(codes: seq<string>, used: seq<string>)
    requires NoDup(codes) && NoDup(used)
    ensures RemoveEach(codes, used).1.None? <==> forall u :: u in used ==> u in codes
    ensures RemoveEach(codes, used).1.None? ==>
      RemoveEach(codes, used).0 == Without(codes, set u | u in used)
    ensures RemoveEach(codes, used).1.Some? ==>
      var u := RemoveEach(codes, used).1.value; u in used && u !in codes
    decreases |used|
  {
    if used == [] {
      assert (set u | u in used) == {};
      WithoutNothing(codes, {});
    } else {
      var u, rest := used[0], used[1..];
      OccursOnce(used, 0);
      NoDupTail(used);
      if u in codes {
        var codes' := RemoveFirst(codes, u);
        RemoveFirstIsWithout(codes, u);
        WithoutNoDup(codes, {u});
        RemoveEachFilters(codes', rest);
        assert RemoveEach(codes, used) == RemoveEach(codes', rest);
        assert used == [u] + rest;
        RemoveStep(codes, u, rest, RemoveEach(codes', rest));
      }
    }
  }

  /** One step of the removal loop: removing `u` first, then the rest. */
  lemma RemoveStep(codes: seq<string>, u: string, rest: seq<string>, r: (seq<string>, Option<string>))
    requires u in codes && u !in rest
    requires r.1.None? <==> forall v :: v in rest ==> v in Without(codes, {u})
    requires r.1.None? ==> r.0 == Without(Without(codes, {u}), set v | v in rest)
    requires r.1.Some? ==> r.1.value in rest && r.1.value !in Without(codes, {u})
    ensures r.1.None? <==> forall v :: v in [u] + rest ==> v in codes
    ensures r.1.None? ==> r.0 == Without(codes, set v | v in [u] + rest)
    ensures r.1.Some? ==> r.1.value in [u] + rest && r.1.value !in codes
  {
    forall v | v in rest
      ensures v in Without(codes, {u}) <==> v in codes
    {
      WithoutMember(codes, {u}, v);
    }
    if r.1.None? {
      WithoutTwice(codes, {u}, set v | v in rest);
      assert {u} + (set v | v in rest) == set v | v in [u] + rest;
    } else {
      WithoutMember(codes, {u}, r.1.value);
    }
  }

  lemma NoDupTail(s: seq<string>)
    requires NoDup(s) && s != []
    ensures NoDup(s[1..])
  {
    var t := s[1..];
    forall i, j | 0 <= i < j < |t|
      ensures t[i] != t[j]
    {
      assert t[i] == s[i + 1] && t[j] == s[j + 1];
    }
  }

  // ----- properties of generate_codes_if_needed -----

  /** The used codes: the keys of the local url table. */
  function Used(db: Store.Db): (r: set<string>)
  {
    db.local.url.Keys
  }

  /** Strictly ascending codes are free of duplicates. */
  lemma AscendingNoDup(s: seq<string>)
    requires ByteOrder.Ascending(s)
    ensures NoDup(s)
  {
  }

  lemma UsedCodesListed(db: Store.Db)
    ensures Store.GetUrlCodes(db.local).None? <==> Used(db) == {}
    ensures Store.GetUrlCodes(db.local).Some? ==>
      var used := Store.GetUrlCodes(db.local).value;
      NoDup(used) && (set u | u in used) == Used(db)
  {
    match Store.GetUrlCodes(db.local)
    case None =>
    case Some(used) =>
      Store.UrlCodesAscending(db.local);
      AscendingNoDup(used);
      forall u
        ensures u in used <==> u in Used(db)
      {
        assert u in used <==> Store.GetLink(db.local, u).Some?;
      }
  }

  /**
    From a list without duplicates, the removal loop raises exactly when some
    used code is not listed, at such a code; otherwise it leaves the listed
    codes that are not used.
   */
  lemma FilterUsedSpec(listed: seq<string>, db: Store.Db)
    requires NoDup(listed)
    ensures var (codes, missing) := FilterUsed(listed, db);
      && (missing.None? <==> forall u :: u in Used(db) ==> u in listed)
      && (missing.None? ==> codes == Without(listed, Used(db)))
      && (missing.Some? ==> missing.value in Used(db) && missing.value !in listed)
  {
    UsedCodesListed(db);
    match Store.GetUrlCodes(db.local)
    case None =>
      WithoutNothing(listed, Used(db));
    case Some(used) =>
      RemoveEachFilters(listed, used);
  }

  /**
    The call raises exactly when some used code is not among the encodings of
    `1..current_max`; it then writes nothing.
   */
  lemma GenerateRaisesIff(s: State)
    requires CanGenerate(s.db)
    ensures var r := GenerateCodesIfNeeded(s);
      && (r.result.Failure? <==> exists u :: u in Used(s.db) && u !in Encodings(1, FirstMax(s.db) + 1))
      && (r.result.Failure? ==> r.state.db == s.db && r.result.error.NotInList?)
      && (r.result.Failure? ==> r.result.error.code in Used(s.db))
  {
    var r := GenerateCodesIfNeeded(s);
    var listed := Encodings(1, FirstMax(s.db) + 1);
    EncodingsNoDup(1, FirstMax(s.db) + 1);
    FilterUsedSpec(listed, s.db);
    var (codes, missing) := FilterUsed(listed, s.db);
    assert r.result.Failure? <==> missing.Some?;
    MissingIffUnlisted(missing, listed, Used(s.db));
  }

  /** The removal loop names a missing code exactly when some used code is not listed. */
  lemma MissingIffUnlisted(missing: Option<string>, listed: seq<string>, used: set<string>)
    requires missing.None? <==> forall u :: u in used ==> u in listed
    requires missing.Some? ==> missing.value in used && missing.value !in listed
    ensures missing.Some? <==> exists u :: u in used && u !in listed
  {
  }

  /** On success the pool is the listed codes minus the used ones, then possibly one more batch. */
  lemma GenerateShape(s: State)
    requires CanGenerate(s.db)
    requires GenerateCodesIfNeeded(s).result.Success?
    ensures var r := GenerateCodesIfNeeded(s);
      var currentMax := FirstMax(s.db);
      var filtered := Without(Encodings(1, currentMax + 1), Used(s.db));
      && (forall u :: u in Used(s.db) ==> u in Encodings(1, currentMax + 1))
      && (|filtered| < LowWatermark ==>
            r.state.codes == filtered + Encodings(currentMax + 1, currentMax + BatchSize + 1)
            && r.state.db == Store.SetSetting(s.db, CurrentMaxKey, currentMax + BatchSize))
      && (|filtered| >= LowWatermark ==>
            r.state.codes == filtered
            && r.state.db == Store.SetSetting(s.db, CurrentMaxKey, currentMax))
  {
    var currentMax := FirstMax(s.db);
    var listed := Encodings(1, currentMax + 1);
    EncodingsNoDup(1, currentMax + 1);
    FilterUsedSpec(listed, s.db);
    var (codes, missing) := FilterUsed(listed, s.db);
    assert missing.None?;
    assert codes == Without(listed, Used(s.db));
  }

  /**
    The counter: never decreases; an unset counter ends at least one batch;
    it grows by one batch beyond the first-pass value exactly when the
    filtered list held fewer than `LowWatermark` codes.
   */
  lemma GenerateCounter(s: State)
    requires CanGenerate(s.db)
    requires GenerateCodesIfNeeded(s).result.Success?
    ensures var r := GenerateCodesIfNeeded(s);
      var newMax := StoredMax(r.state.db);
      var filtered := Without(Encodings(1, FirstMax(s.db) + 1), Used(s.db));
      && newMax >= StoredMax(s.db)
      && (StoredMax(s.db) == 0 ==> newMax >= BatchSize)
      && (newMax == FirstMax(s.db) + BatchSize <==> |filtered| < LowWatermark)
      && (|filtered| >= LowWatermark ==> newMax == FirstMax(s.db))
  {
    GenerateShape(s);
  }

  /**
    The only write of a successful generation is one `set_setting` of
    `current_max`: the url table and every other setting stay, the remote
    tier is untouched, and one replication task is queued.
   */
  lemma GenerateWritesOnlyCounter(s: State)
    requires CanGenerate(s.db)
    requires GenerateCodesIfNeeded(s).result.Success?
    ensures var r := GenerateCodesIfNeeded(s);
      r.state.db == Store.SetSetting(s.db, CurrentMaxKey, StoredMax(r.state.db))
  {
    SuccessNeedsCounter(s);
    assert FirstMax(s.db) >= -1;
    GenerateShape(s);
  }

  /**
    On success, for a counter that was not negative, the pool is exactly the
    encodings of `1..current_max` (the new value), in ascending counter
    order, minus the used codes; the previous pool plays no part.
   */
  lemma GeneratePoolContents(s: State)
    requires StoredMax(s.db) >= 0
    requires GenerateCodesIfNeeded(s).result.Success?
    ensures var r := GenerateCodesIfNeeded(s);
      r.state.codes == Without(Encodings(1, StoredMax(r.state.db) + 1), Used(s.db))
  {
    var r := GenerateCodesIfNeeded(s);
    var currentMax := FirstMax(s.db);
    var newMax := StoredMax(r.state.db);
    var filtered := Without(Encodings(1, currentMax + 1), Used(s.db));
    GenerateShape(s);
    GenerateCounter(s);
    assert |filtered| < LowWatermark ==> newMax == currentMax + BatchSize;
    assert |filtered| >= LowWatermark ==> newMax == currentMax;
    PoolFromShape(r.state.codes, currentMax, newMax, Used(s.db));
  }

  /** The two outcomes of a successful generation, as one filtered range. */
  lemma PoolFromShape(codes: seq<string>, currentMax: nat, newMax: int, used: set<string>)
    requires forall u :: u in used ==> u in Encodings(1, currentMax + 1)
    requires var filtered := Without(Encodings(1, currentMax + 1), used);
      && (|filtered| < LowWatermark ==> codes == filtered + Encodings(currentMax + 1, currentMax + BatchSize + 1) && newMax == currentMax + BatchSize)
      && (|filtered| >= LowWatermark ==> codes == filtered && newMax == currentMax)
    ensures codes == Without(Encodings(1, newMax + 1), used)
  {
    if |Without(Encodings(1, currentMax + 1), used)| < LowWatermark {
      FilterThenExtend(currentMax, currentMax + BatchSize, used);
    }
  }

  /**
    Encodings of larger counters hold no code of `used`, so filtering the
    whole range is filtering the first part and appending the rest.
   */
  lemma FilterThenExtend(mid: nat, hi: nat, used: set<string>)
    requires mid <= hi
    requires forall u :: u in used ==> u in Encodings(1, mid + 1)
    ensures Without(Encodings(1, hi + 1), used) == Without(Encodings(1, mid + 1), used) + Encodings(mid + 1, hi + 1)
  {
    var extra := Encodings(mid + 1, hi + 1);
    EncodingsSplit(1, mid + 1, hi + 1);
    WithoutConcat(Encodings(1, mid + 1), extra, used);
    EncodingsApart(1, mid + 1, mid + 1, hi + 1);
    WithoutNothing(extra, used);
  }

  /**
    The listed codes minus the used ones, followed by encodings of larger
    counters, hold no duplicate, no used code and no empty code.
   */
  lemma FreshCodes(currentMax: int, hi: int, used: set<string>)
    requires currentMax >= -1
    requires forall u :: u in used ==> u in Encodings(1, currentMax + 1)
    ensures var pool := Without(Encodings(1, currentMax + 1), used) + Encodings(currentMax + 1, hi);
      && NoDup(pool)
      && (forall c :: c in pool ==> c !in used)
      && "" !in pool
  {
    var listed := Encodings(1, currentMax + 1);
    var filtered := Without(listed, used);
    var extra := Encodings(currentMax + 1, hi);
    EncodingsNoDup(1, currentMax + 1);
    WithoutNoDup(listed, used);
    EncodingsNoDup(currentMax + 1, hi);
    EncodingsApart(1, currentMax + 1, currentMax + 1, hi);
    forall c | c in filtered
      ensures c in listed && c !in used
    {
      WithoutMember(listed, used, c);
    }
    NoDupConcat(filtered, extra);
    EncodingsNonEmpty(1, currentMax + 1);
    EncodingsNonEmpty(currentMax + 1, hi);
  }

  /** A successful generation leaves a non-empty pool that keeps the pool invariant. */
  lemma GenerateKeepsInvariant(s: State)
    requires CanGenerate(s.db)
    requires GenerateCodesIfNeeded(s).result.Success?
    ensures var r := GenerateCodesIfNeeded(s);
      PoolInvariant(r.state) && |r.state.codes| > 0
  {
    SuccessNeedsCounter(s);
    assert FirstMax(s.db) >= -1;
    GenerateShape(s);
    var r := GenerateCodesIfNeeded(s);
    ShapeIsFresh(r.state.codes, FirstMax(s.db), Used(s.db));
  }

  /** Either outcome of a successful generation is a non-empty list of fresh, distinct, non-empty codes. */
  lemma ShapeIsFresh(codes: seq<string>, currentMax: int, used: set<string>)
    requires currentMax >= -1
    requires forall u :: u in used ==> u in Encodings(1, currentMax + 1)
    requires var filtered := Without(Encodings(1, currentMax + 1), used);
      && (|filtered| < LowWatermark ==> codes == filtered + Encodings(currentMax + 1, currentMax + BatchSize + 1))
      && (|filtered| >= LowWatermark ==> codes == filtered)
    ensures NoDup(codes) && (forall c :: c in codes ==> c !in used) && "" !in codes && |codes| > 0
  {
    var filtered := Without(Encodings(1, currentMax + 1), used);
    if |filtered| < LowWatermark {
      FreshCodes(currentMax, currentMax + BatchSize + 1, used);
    } else {
      FreshCodes(currentMax, currentMax + 1, used);
      assert filtered + Encodings(currentMax + 1, currentMax + 1) == filtered;
    }
  }

  /** The previous content of the pool does not influence a generation. */
  lemma GenerateDiscardsOldPool(s: State, old_codes: seq<string>)
    requires CanGenerate(s.db)
    ensures GenerateCodesIfNeeded(s) == GenerateCodesIfNeeded(State(old_codes, s.db))
  {
  }

  // ----- properties of get_code_for_new_url -----

  /**
    The store is written (the counter) exactly when the pool was below the low
    watermark and the regeneration succeeded; otherwise it is untouched.
   */
  lemma GetCodeRegeneratesIff(s: State, choice: nat)
    requires |s.codes| >= LowWatermark || CanGenerate(s.db)
    ensures var r := GetCodeForNewUrl(s, choice);
      && (r.state.db != s.db <==> |s.codes| < LowWatermark && r.result.Success?)
      && (|s.codes| < LowWatermark && r.result.Success? ==>
            r.state.db == GenerateCodesIfNeeded(s).state.db)
  {
    if |s.codes| < LowWatermark && GenerateCodesIfNeeded(s).result.Success? {
      GenerateCounter(s);
      GenerateKeepsInvariant(s);
    }
  }

  /**
    A returned code sat at the chosen index of the replenished pool; the pool
    loses exactly that element and keeps the others in order.
   */
  lemma GetCodeTakesOne(s: State, choice: nat)
    requires |s.codes| >= LowWatermark || CanGenerate(s.db)
    requires |s.codes| < LowWatermark || NoDup(s.codes)
    ensures var r := GetCodeForNewUrl(s, choice);
      var pool := Replenish(s).state.codes;
      r.result.Success? ==>
        && |pool| > 0
        && r.result.value == pool[choice % |pool|]
        && r.state.codes == pool[..choice % |pool|] + pool[choice % |pool| + 1..]
        && |r.state.codes| == |pool| - 1
        && r.result.value !in r.state.codes
  {
    var r := GetCodeForNewUrl(s, choice);
    var pool := Replenish(s).state.codes;
    if r.result.Success? {
      if |s.codes| < LowWatermark {
        GenerateKeepsInvariant(s);
      }
      var i := choice % |pool|;
      OccursOnce(pool, i);
      RemoveFirstAt(pool, i);
      NoDupRemoveAt(pool, i);
    }
  }

  /**
    The empty-pool error never happens, and a returned code is never empty,
    so the "no code available" branch of the caller is dead.
   */
  lemma GetCodeNeverEmpty(s: State, choice: nat)
    requires |s.codes| >= LowWatermark || CanGenerate(s.db)
    requires |s.codes| < LowWatermark || "" !in s.codes
    ensures var r := GetCodeForNewUrl(s, choice);
      && r.result != Failure(EmptyRange)
      && (r.result.Success? ==> r.result.value != "")
  {
    if |s.codes| < LowWatermark && GenerateCodesIfNeeded(s).result.Success? {
      GenerateKeepsInvariant(s);
    }
  }

  /**
    From a pool that keeps the invariant (or one about to be regenerated), a
    returned code is not bound to any link and is no longer in the pool, and
    the invariant still holds.
   */
  lemma GetCodeKeepsInvariant(s: State, choice: nat)
    requires |s.codes| >= LowWatermark || CanGenerate(s.db)
    requires |s.codes| < LowWatermark || PoolInvariant(s)
    ensures var r := GetCodeForNewUrl(s, choice);
      r.result.Success? ==>
        && PoolInvariant(r.state)
        && r.result.value !in r.state.db.local.url
        && r.result.value !in r.state.codes
        && r.state.db.local.url == s.db.local.url
  {
    var r := GetCodeForNewUrl(s, choice);
    if r.result.Success? {
      var pre := Replenish(s);
      if |s.codes| < LowWatermark {
        GenerateKeepsInvariant(s);
        GenerateCounter(s);
      }
      var pool := pre.state.codes;
      var i := choice % |pool|;
      OccursOnce(pool, i);
      RemoveFirstAt(pool, i);
      NoDupRemoveAt(pool, i);
    }
  }

  // ----- the steady state of the service -----

  /** `c` is the encoding of a counter in `1..current_max`. */
  ghost predicate Issued(c: string, db: Store.Db)
  {
    c in Encodings(1, FirstMax(db) + 1)
  }

  /**
    The state a running service keeps: a non-negative counter, a pool that
    keeps the pool invariant, and every pooled or used code an encoding of a
    counter that has been issued.
   */
  ghost predicate Consistent(s: State)
  {
    && StoredMax(s.db) >= 0
    && PoolInvariant(s)
    && (forall c :: c in s.codes ==> Issued(c, s.db))
    && (forall u :: u in Used(s.db) ==> Issued(u, s.db))
  }

  /**
    From a non-negative counter under which every used code has been issued,
    a generation succeeds and reaches the steady state; the url table is
    unchanged.
   */
  lemma GenerateKeepsConsistent(s: State)
    requires StoredMax(s.db) >= 0
    requires forall u :: u in Used(s.db) ==> Issued(u, s.db)
    ensures var r := GenerateCodesIfNeeded(s);
      && r.result.Success?
      && Consistent(r.state)
      && r.state.db.local.url == s.db.local.url
      && StoredMax(r.state.db) >= StoredMax(s.db)
  {
    var r := GenerateCodesIfNeeded(s);
    assert r.result.Success? by {
      GenerateSucceeds(s);
    }
    assert PoolInvariant(r.state) by {
      GenerateKeepsInvariant(s);
    }
    assert StoredMax(r.state.db) >= FirstMax(s.db) >= 1 && r.state.db.local.url == s.db.local.url by {
      GenerateCounter(s);
    }
    assert forall u :: u in Used(r.state.db) ==> Issued(u, r.state.db) by {
      IssuedGrows(s.db, r.state.db);
    }
    assert forall c :: c in r.state.codes ==> Issued(c, r.state.db) by {
      GeneratePoolContents(s);
      WithoutIssued(r.state.db, Used(s.db));
    }
  }

  lemma GenerateSucceeds(s: State)
    requires StoredMax(s.db) >= -1
    requires forall u :: u in Used(s.db) ==> Issued(u, s.db)
    ensures GenerateCodesIfNeeded(s).result.Success?
  {
    GenerateRaisesIff(s);
  }

  /** Raising the counter only adds issued codes. */
  lemma IssuedGrows(db: Store.Db, db': Store.Db)
    requires FirstMax(db) <= FirstMax(db')
    ensures forall c :: Issued(c, db) ==> Issued(c, db')
  {
    EncodingsGrow(1, FirstMax(db) + 1, FirstMax(db') + 1);
  }

  lemma WithoutIssued(db: Store.Db, used: set<string>)
    requires StoredMax(db) >= 1
    ensures forall c :: c in Without(Encodings(1, StoredMax(db) + 1), used) ==> Issued(c, db)
  {
    forall c | c in Without(Encodings(1, StoredMax(db) + 1), used)
      ensures Issued(c, db)
    {
      WithoutMember(Encodings(1, StoredMax(db) + 1), used, c);
    }
  }

  /**
    In the steady state a new-code request never raises: it returns an issued
    code that is bound to no link and has left the pool, and the steady state
    holds again; the url table is unchanged and the counter does not go down.
   */
  lemma GetCodeKeepsConsistent(s: State, choice: nat)
    requires Consistent(s)
    ensures var r := GetCodeForNewUrl(s, choice);
      && r.result.Success?
      && Consistent(r.state)
      && r.result.value !in Used(s.db)
      && r.result.value !in r.state.codes
      && Issued(r.result.value, r.state.db)
      && r.state.db.local.url == s.db.local.url
      && StoredMax(r.state.db) >= StoredMax(s.db)
  {
    var pre := Replenish(s);
    if |s.codes| < LowWatermark {
      GenerateKeepsConsistent(s);
      GenerateKeepsInvariant(s);
    }
    var pool := pre.state.codes;
    var i := choice % |pool|;
    OccursOnce(pool, i);
    RemoveFirstAt(pool, i);
    NoDupRemoveAt(pool, i);
  }

  /** Every call keeps the local and the remote tier in step through the queue. */
  lemma GetCodeKeepsReplicated(s: State, choice: nat)
    requires |s.codes| >= LowWatermark || CanGenerate(s.db)
    requires Store.Replicated(s.db)
    ensures Store.Replicated(GetCodeForNewUrl(s, choice).state.db)
  {
    if |s.codes| < LowWatermark {
      GenerateKeepsReplicated(s);
    }
  }

  lemma GenerateKeepsReplicated(s: State)
    requires CanGenerate(s.db)
    requires Store.Replicated(s.db)
    ensures Store.Replicated(GenerateCodesIfNeeded(s).state.db)
  {
    var r := GenerateCodesIfNeeded(s);
    if r.result.Success? {
      GenerateWritesOnlyCounter(s);
      Store.WritePreservesReplicated(s.db, Store.SetSettingTask(CurrentMaxKey, StoredMax(r.state.db)));
    } else {
      GenerateRaisesIff(s);
    }
  }

  lemma NoDupRemoveAt(s: seq<string>, i: nat)
    requires NoDup(s) && i < |s|
    ensures NoDup(s[..i] + s[i + 1..])
    ensures forall c :: c in s[..i] + s[i + 1..] ==> c in s && c != s[i]
  {
    var t := s[..i] + s[i + 1..];
    forall a, b | 0 <= a < b < |t|
      ensures t[a] != t[b]
    {
      var a' := if a < i then a else a + 1;
      var b' := if b < i then b else b + 1;
      assert t[a] == s[a'] && t[b] == s[b'];
    }
    forall c | c in t
      ensures c in s && c != s[i]
    {
      var k :| 0 <= k < |t| && t[k] == c;
      var k' := if k < i then k else k + 1;
      assert t[k] == s[k'];
    }
  }
}
