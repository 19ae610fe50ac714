/**
 * Task identifiers and the ordering key `ID_to_int` gives them: a string
 * "prefix-n" becomes the pair (prefix, n), a number stays a number, and
 * anything else raises. The molecule id is the task id that comes first
 * when the candidates are sorted (stably) by that key.
 */
module Ids {
  import opened Wrappers

  /**
   * A task id as stored: a string, a number, or some other JSON value, which
   * is hashable (null) or not (a list or an object).
   */
  datatype RawId = StrId(s: string) | IntId(n: int) | OtherId(hashable: bool)

  /** Python can put the id in a set: strings, numbers and null can, lists and objects cannot. */
  predicate Hashable(id: RawId) {
    !id.OtherId? || id.hashable
  }

  /** The ordering key of an id: the pair (text before the first '-', number after the last '-'), or the number itself. */
  datatype IdKey = Pair(prefix: string, num: int) | Number(n: int)

  /** Why no molecule id could be chosen. */
  datatype IdError =
    | Unparsable(id: RawId)   // ID_to_int raised (int() of the tail failed, or the id is neither string nor number)
    | Incomparable            // the keys mix pairs and numbers, which Python cannot compare
    | NoCandidates            // possible_mol_ids[0] on an empty list

  // ---------------------------------------------------------------------
  // str.split("-")[0] and str.split("-")[-1]

  /** The text before the first occurrence of `c` (all of `s` when there is none). */
  function BeforeFirst(s: string, c: char): (r: string)
    ensures r <= s && c !in r
    ensures r == s || s[|r|] == c
  {
    if s == [] || s[0] == c then [] else [s[0]] + BeforeFirst(s[1..], c)
  }

  /** The text after the last occurrence of `c` (all of `s` when there is none). */
  function AfterLast(s: string, c: char): (r: string)
    ensures |r| <= |s| && r == s[|s| - |r|..] && c !in r
    ensures r == s || s[|s| - |r| - 1] == c
  {
    if s == [] || s[|s| - 1] == c then [] else AfterLast(s[..|s| - 1], c) + [s[|s| - 1]]
  }

  // ---------------------------------------------------------------------
  // int() of a text that holds no '-'

  predicate IsDigit(ch: char) {
    '0' <= ch <= '9'
  }

  predicate AllDigits(s: string) {
    forall i :: 0 <= i < |s| ==> IsDigit(s[i])
  }

  /** The decimal value of a string of digits. */
  function DigitsValue(s: string): nat
    requires AllDigits(s)
  {
    if s == [] then 0 else DigitsValue(s[..|s| - 1]) * 10 + (s[|s| - 1] as int - '0' as int)
  }

  /** Python's int() on a text without '-': an optional '+' followed by at least one digit. */
  function ParseInt(s: string): Option<int> {
    var digits := if |s| > 0 && s[0] == '+' then s[1..] else s;
    if |digits| > 0 && AllDigits(digits) then Some(DigitsValue(digits)) else None
  }

  function DigitChar(d: nat): (ch: char)
    requires d < 10
    ensures IsDigit(ch)
  {
    ('0' as int + d) as char
  }

  /** The decimal spelling of a natural number, without leading zeros. */
  function Decimal(n: nat): (r: string)
    ensures |r| > 0 && AllDigits(r)
  {
    if n < 10 then [DigitChar(n)] else Decimal(n / 10) + [DigitChar(n % 10)]
  }

  lemma {:induction false} DecimalValue(n: nat)
    ensures DigitsValue(Decimal(n)) == n
  {
    if n >= 10 {
      var s := Decimal(n);
      assert s[..|s| - 1] == Decimal(n / 10);
      DecimalValue(n / 10);
    }
  }

  // ---------------------------------------------------------------------
  // ID_to_int

  function IdToKey(id: RawId): Result<IdKey, IdError> {
    match id
    case StrId(s) =>
      (match ParseInt(AfterLast(s, '-'))
       case Some(n) => Ok(Pair(BeforeFirst(s, '-'), n))
       case None => Err(Unparsable(id)))
    case IntId(n) => Ok(Number(n))
    case OtherId(_) => Err(Unparsable(id))
  }

  lemma {:induction false} BeforeFirstOfJoin(prefix: string, rest: string, c: char)
    requires c !in prefix && |rest| > 0 && rest[0] == c
    ensures BeforeFirst(prefix + rest, c) == prefix
  {
    if prefix != [] {
      assert (prefix + rest)[1..] == prefix[1..] + rest;
      BeforeFirstOfJoin(prefix[1..], rest, c);
    }
  }

  lemma {:induction false} AfterLastOfJoin(init: string, tail: string, c: char)
    requires c !in tail && |init| > 0 && init[|init| - 1] == c
    ensures AfterLast(init + tail, c) == tail
  {
    if tail != [] {
      var s := init + tail;
      assert s[..|s| - 1] == init + tail[..|tail| - 1];
      AfterLastOfJoin(init, tail[..|tail| - 1], c);
      assert tail == tail[..|tail| - 1] + [tail[|tail| - 1]];
    }
  }

  /** An id written "prefix-n", with no '-' in the prefix, has the key (prefix, n); a number is its own key; other values raise. */
  lemma IdToKeyCases(prefix: string, n: nat, m: int, h: bool)
    requires '-' !in prefix
    ensures IdToKey(StrId(prefix + "-" + Decimal(n))) == Ok(Pair(prefix, n))
    ensures IdToKey(IntId(m)) == Ok(Number(m))
    ensures IdToKey(OtherId(h)) == Err(Unparsable(OtherId(h)))
  {
    KeyOfJoin(prefix, Decimal(n));
    DecimalValue(n);
  }

  lemma ParseDecimal(n: nat)
    ensures ParseInt(Decimal(n)) == Some(n)
  {
    var d := Decimal(n);
    assert d[0] != '+' by { assert IsDigit(d[0]); }
    DecimalValue(n);
  }

  /** The text after the last '-' is not a number, so ID_to_int raises. */
  lemma IdWithoutNumberIsUnparsable(s: string)
    requires forall i :: 0 <= i < |s| ==> !IsDigit(s[i])
    ensures IdToKey(StrId(s)) == Err(Unparsable(StrId(s)))
  {
    var tail := AfterLast(s, '-');
    if |tail| > 0 {
      assert tail[0] == s[|s| - |tail|];
      if tail[0] == '+' && |tail| > 1 {
        assert tail[1..][0] == s[|s| - |tail| + 1];
      }
    }
  }

  // ---------------------------------------------------------------------
  // Python's ordering of the keys

  /** Python's `<` on two strings: code point by code point, a proper prefix first. */
  predicate StrLess(a: string, b: string) {
    if a == [] then b != []
    else if b == [] then false
    else a[0] < b[0] || (a[0] == b[0] && StrLess(a[1..], b[1..]))
  }

  lemma {:induction false} StrLessIrreflexive(a: string)
    ensures !StrLess(a, a)
  {
    if a != [] {
      StrLessIrreflexive(a[1..]);
    }
  }

  lemma {:induction false} StrLessTransitive(a: string, b: string, c: string)
    requires StrLess(a, b) && StrLess(b, c)
    ensures StrLess(a, c)
  {
    if a != [] && a[0] == b[0] && b[0] == c[0] {
      StrLessTransitive(a[1..], b[1..], c[1..]);
    }
  }

  lemma {:induction false} StrLessTotal(a: string, b: string)
    ensures a == b || StrLess(a, b) || StrLess(b, a)
  {
    if a != [] && b != [] && a[0] == b[0] {
      StrLessTotal(a[1..], b[1..]);
      if a[1..] == b[1..] {
        assert a == [a[0]] + a[1..] && b == [b[0]] + b[1..];
      }
    }
  }

  /** Python's `<` on two keys of the same kind; keys of different kinds are never ordered. */
  predicate KeyLess(a: IdKey, b: IdKey) {
    match (a, b)
    case (Pair(p, n), Pair(q, m)) => StrLess(p, q) || (p == q && n < m)
    case (Number(x), Number(y)) => x < y
    case _ => false
  }

  predicate SameKind(a: IdKey, b: IdKey) {
    a.Pair? == b.Pair?
  }

  lemma KeyLessIrreflexive(a: IdKey)
    ensures !KeyLess(a, a)
  {
    if a.Pair? {
      StrLessIrreflexive(a.prefix);
    }
  }

  lemma KeyLessTransitive(a: IdKey, b: IdKey, c: IdKey)
    requires KeyLess(a, b) && KeyLess(b, c)
    ensures KeyLess(a, c)
  {
    if a.Pair? {
      if StrLess(a.prefix, b.prefix) && StrLess(b.prefix, c.prefix) {
        StrLessTransitive(a.prefix, b.prefix, c.prefix);
      }
    }
  }

  lemma KeyLessTotal(a: IdKey, b: IdKey)
    requires SameKind(a, b)
    ensures a == b || KeyLess(a, b) || KeyLess(b, a)
  {
    if a.Pair? {
      StrLessTotal(a.prefix, b.prefix);
    }
  }

  /** How `ID_to_int` orders formatted ids: prefixes compare first, then the numbers as numbers. */
  lemma FormattedIdOrder(p: string, n: nat, q: string, m: nat)
    requires '-' !in p && '-' !in q
    ensures IdToKey(StrId(p + "-" + Decimal(n))).Ok? && IdToKey(StrId(q + "-" + Decimal(m))).Ok?
    ensures KeyLess(IdToKey(StrId(p + "-" + Decimal(n))).value, IdToKey(StrId(q + "-" + Decimal(m))).value)
        <==> StrLess(p, q) || (p == q && n < m)
  {
    IdToKeyCases(p, n, 0, true);
    IdToKeyCases(q, m, 0, true);
  }

  /** An id "prefix-digits", with no '-' in the prefix, has the key (prefix, value of the digits). */
  lemma KeyOfJoin(prefix: string, digits: string)
    requires '-' !in prefix && |digits| > 0 && AllDigits(digits)
    ensures IdToKey(StrId(prefix + "-" + digits)) == Ok(Pair(prefix, DigitsValue(digits)))
  {
    assert '-' !in digits by {
      forall i | 0 <= i < |digits| ensures digits[i] != '-' { assert IsDigit(digits[i]); }
    }
    var id := prefix + "-" + digits;
    assert id == prefix + ("-" + digits);
    BeforeFirstOfJoin(prefix, "-" + digits, '-');
    AfterLastOfJoin(prefix + "-", digits, '-');
    assert digits[0] != '+' by { assert IsDigit(digits[0]); }
  }

  // ---------------------------------------------------------------------
  // sorted(all_props, key=ID_to_int(task_id))[0]

  /** Every id of the list has a key. */
  predicate AllParse(ids: seq<RawId>) {
    forall i :: 0 <= i < |ids| ==> IdToKey(ids[i]).Ok?
  }

  function KeysOf(ids: seq<RawId>): (keys: seq<IdKey>)
    requires AllParse(ids)
    ensures |keys| == |ids|
    ensures forall i :: 0 <= i < |ids| ==> IdToKey(ids[i]) == Ok(keys[i])
  {
    seq(|ids|, i requires 0 <= i < |ids| => IdToKey(ids[i]).value)
  }

  /** The first id whose key cannot be computed: the one ID_to_int raises on. */
  function FirstUnparsable(ids: seq<RawId>): (k: nat)
    requires !AllParse(ids)
    ensures k < |ids| && IdToKey(ids[k]).Err?
    ensures forall j :: 0 <= j < k ==> IdToKey(ids[j]).Ok?
  {
    if IdToKey(ids[0]).Err? then 0 else 1 + FirstUnparsable(ids[1..])
  }

  /** Sorting can compare every pair of keys: they are all pairs or all numbers. */
  predicate Comparable(keys: seq<IdKey>) {
    forall i, j :: 0 <= i < |keys| && 0 <= j < |keys| ==> SameKind(keys[i], keys[j])
  }

  /** Position k holds a least key, and every earlier position a strictly greater one: the stable sort puts k first. */
  predicate IsFirstMin(keys: seq<IdKey>, k: nat)
    requires k < |keys|
  {
    (forall j :: 0 <= j < |keys| ==> !KeyLess(keys[j], keys[k])) &&
    (forall j :: 0 <= j < k ==> KeyLess(keys[k], keys[j]))
  }

  lemma NewFirstMin(keys: seq<IdKey>, m: nat)
    requires |keys| > 1 && Comparable(keys) && m < |keys| - 1
    requires IsFirstMin(keys[..|keys| - 1], m)
    requires KeyLess(keys[|keys| - 1], keys[m])
    ensures IsFirstMin(keys, |keys| - 1)
  {
    var last := |keys| - 1;
    forall j | 0 <= j < last
      ensures !KeyLess(keys[j], keys[last]) && KeyLess(keys[last], keys[j])
    {
      assert keys[..last][j] == keys[j];
      KeyLessTotal(keys[j], keys[m]);
      if keys[j] != keys[m] {
        KeyLessTransitive(keys[last], keys[m], keys[j]);
      }
      if KeyLess(keys[j], keys[last]) {
        KeyLessTransitive(keys[j], keys[last], keys[m]);
      }
    }
    KeyLessIrreflexive(keys[last]);
  }

  /** The position the stable sort by key puts first. */
  function FirstMin(keys: seq<IdKey>): (k: nat)
    requires |keys| > 0 && Comparable(keys)
    ensures k < |keys| && IsFirstMin(keys, k)
  {
    if |keys| == 1 then
      KeyLessIrreflexive(keys[0]);
      0
    else
      var init := keys[..|keys| - 1];
      assert Comparable(init) by {
        forall i, j | 0 <= i < |init| && 0 <= j < |init| ensures SameKind(init[i], init[j]) {
          assert init[i] == keys[i] && init[j] == keys[j];
        }
      }
      var m := FirstMin(init);
      if KeyLess(keys[|keys| - 1], keys[m]) then
        NewFirstMin(keys, m);
        |keys| - 1
      else
        assert forall j :: 0 <= j < |keys| - 1 ==> keys[j] == init[j];
        m
  }

  /** At most one position is first in the stable order: the contract of FirstMin determines its result. */
  lemma FirstMinUnique(keys: seq<IdKey>, k1: nat, k2: nat)
    requires k1 < |keys| && k2 < |keys|
    requires IsFirstMin(keys, k1) && IsFirstMin(keys, k2)
    ensures k1 == k2
  {
    assert !KeyLess(keys[k1], keys[k2]) && !KeyLess(keys[k2], keys[k1]);
  }

  /** The molecule id chosen from the candidates' task ids, or the exception the source raises. */
  function MolId(ids: seq<RawId>): (r: Result<RawId, IdError>)
    ensures !AllParse(ids) ==> r == Err(Unparsable(ids[FirstUnparsable(ids)]))
    ensures AllParse(ids) && !Comparable(KeysOf(ids)) ==> r == Err(Incomparable)
    ensures ids == [] ==> r == Err(NoCandidates)
    ensures r.Ok? <==> AllParse(ids) && Comparable(KeysOf(ids)) && ids != []
    ensures r.Ok? ==> exists k :: 0 <= k < |ids| && IsFirstMin(KeysOf(ids), k) && r.value == ids[k]
  {
    if !AllParse(ids) then Err(Unparsable(ids[FirstUnparsable(ids)]))
    else if !Comparable(KeysOf(ids)) then Err(Incomparable)
    else if ids == [] then Err(NoCandidates)
    else Ok(ids[FirstMin(KeysOf(ids))])
  }

  /**
   * The chosen id does not depend on the order of the candidates, provided
   * that ids sharing a key are the same id.
   */
  lemma MolIdIgnoresOrder(ids: seq<RawId>, ids': seq<RawId>)
    requires multiset(ids) == multiset(ids')
    requires AllParse(ids)
    requires forall i, j :: 0 <= i < |ids| && 0 <= j < |ids| && KeysOf(ids)[i] == KeysOf(ids)[j] ==> ids[i] == ids[j]
    ensures MolId(ids') == MolId(ids)
  {
    assert forall x :: x in ids <==> x in ids' by {
      forall x ensures x in ids <==> x in ids' {
        assert x in ids <==> x in multiset(ids);
        assert x in ids' <==> x in multiset(ids');
      }
    }
    assert AllParse(ids') by {
      forall i | 0 <= i < |ids'| ensures IdToKey(ids'[i]).Ok? {
        assert ids'[i] in ids;
      }
    }
    var keys, keys' := KeysOf(ids), KeysOf(ids');
    assert Comparable(keys) <==> Comparable(keys') by {
      if Comparable(keys) {
        forall i, j | 0 <= i < |keys'| && 0 <= j < |keys'| ensures SameKind(keys'[i], keys'[j]) {
          assert ids'[i] in ids && ids'[j] in ids;
          var a :| 0 <= a < |ids| && ids[a] == ids'[i];
          var b :| 0 <= b < |ids| && ids[b] == ids'[j];
          assert keys'[i] == keys[a] && keys'[j] == keys[b];
        }
      }
      if Comparable(keys') {
        forall i, j | 0 <= i < |keys| && 0 <= j < |keys| ensures SameKind(keys[i], keys[j]) {
          assert ids[i] in ids' && ids[j] in ids';
          var a :| 0 <= a < |ids'| && ids'[a] == ids[i];
          var b :| 0 <= b < |ids'| && ids'[b] == ids[j];
          assert keys[i] == keys'[a] && keys[j] == keys'[b];
        }
      }
    }
    assert ids == [] <==> ids' == [] by {
      assert |ids| == |multiset(ids)| == |multiset(ids')| == |ids'|;
    }
    if Comparable(keys) && ids != [] {
      var k, k' := FirstMin(keys), FirstMin(keys');
      assert ids'[k'] in ids && ids[k] in ids';
      var a :| 0 <= a < |ids| && ids[a] == ids'[k'];
      var b :| 0 <= b < |ids'| && ids'[b] == ids[k];
      assert keys[a] == keys'[k'] && keys'[b] == keys[k];
      KeyLessTotal(keys[k], keys[a]);
      assert keys[k] == keys[a];
    }
  }

  /** A leading zero does not change the value int() gives. */
  lemma {:induction false} LeadingZeroValue(d: string)
    requires AllDigits(d)
    ensures AllDigits("0" + d) && DigitsValue("0" + d) == DigitsValue(d)
  {
    if d != [] {
      var z := "0" + d;
      assert z[..|z| - 1] == "0" + d[..|d| - 1];
      LeadingZeroValue(d[..|d| - 1]);
    }
  }

  /** Distinct ids can share a key: "p-n" and "p-0n". */
  lemma PaddedIdSharesKey(prefix: string, n: nat)
    requires '-' !in prefix
    ensures var a, b := StrId(prefix + "-" + Decimal(n)), StrId(prefix + "-" + ("0" + Decimal(n)));
            a != b && IdToKey(a) == IdToKey(b) == Ok(Pair(prefix, n))
  {
    var d := Decimal(n);
    LeadingZeroValue(d);
    KeyOfJoin(prefix, d);
    KeyOfJoin(prefix, "0" + d);
    DecimalValue(n);
    assert |prefix + "-" + d| != |prefix + "-" + ("0" + d)|;
  }

  lemma FirstMinOfEqualPair(keys: seq<IdKey>)
    requires |keys| == 2 && keys[0] == keys[1]
    ensures Comparable(keys) && FirstMin(keys) == 0
  {
    KeyLessIrreflexive(keys[0]);
    assert IsFirstMin(keys, 0);
    FirstMinUnique(keys, 0, FirstMin(keys));
  }

  lemma MolIdOfEqualPair(x: RawId, y: RawId)
    requires IdToKey(x).Ok? && IdToKey(y) == IdToKey(x)
    ensures MolId([x, y]) == Ok(x)
  {
    var ids := [x, y];
    assert AllParse(ids);
    FirstMinOfEqualPair(KeysOf(ids));
  }

  /**
   * When two different ids share a key, the stable sort keeps them in input
   * order, so the molecule id depends on which candidate comes first.
   */
  lemma MolIdKeepsFirstOfEqualKeys(a: RawId, b: RawId)
    requires IdToKey(a).Ok? && IdToKey(b) == IdToKey(a)
    ensures MolId([a, b]) == Ok(a)
    ensures MolId([b, a]) == Ok(b)
  {
    MolIdOfEqualPair(a, b);
    MolIdOfEqualPair(b, a);
  }
}
