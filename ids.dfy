/** Identifier allocation: an id is a fixed prefix followed by a decimal
    number; a new id takes the largest number in its scope plus one, or 0
    when the scope holds no id with that prefix. */
module Ids {
  import opened Wrappers

  predicate IsDigit(c: char) { '0' <= c <= '9' }

  predicate AllDigits(s: string) { forall i :: 0 <= i < |s| ==> IsDigit(s[i]) }

  function DigitValue(c: char): nat
    requires IsDigit(c)
  {
    c as int - '0' as int
  }

  function DigitChar(d: nat): char
    requires d < 10
  {
    ('0' as int + d) as char
  }

  /** The longest prefix of `s` made of decimal digits. */
  function LeadingDigits(s: string): (r: string)
    ensures r <= s && AllDigits(r)
    ensures |r| < |s| ==> !IsDigit(s[|r|])
  {
    if |s| > 0 && IsDigit(s[0]) then [s[0]] + LeadingDigits(s[1..]) else []
  }

  /** The number a string of decimal digits denotes. */
  function DecimalValue(d: string): nat
    requires AllDigits(d)
  {
    if d == [] then 0 else DecimalValue(d[..|d| - 1]) * 10 + DigitValue(d[|d| - 1])
  }

  /** SQLite's `CAST(s AS unsigned)`, abstracted to the value of the
      leading decimal digits of the text; text without leading digits
      becomes 0. */
  function CastUnsigned(s: string): (r: nat)
    ensures AllDigits(s) ==> r == DecimalValue(s)
    ensures (s == [] || !IsDigit(s[0])) ==> r == 0
  {
    var d := LeadingDigits(s);
    assert AllDigits(s) ==> |d| == |s| && d == s[..|d|] && s[..|s|] == s;
    DecimalValue(d)
  }

  /** Python's `str(n)` for a natural number. */
  function Show(n: nat): (s: string)
    ensures |s| > 0 && AllDigits(s)
  {
    if n < 10 then [DigitChar(n)] else Show(n / 10) + [DigitChar(n % 10)]
  }

  /** A text that may follow a number without extending it. */
  predicate EndsNumber(tail: string) { tail == [] || !IsDigit(tail[0]) }

  lemma {:induction false} DecimalValueOfShow(n: nat)
    ensures DecimalValue(Show(n)) == n
  {
    var s := Show(n);
    if n < 10 {
      assert s[..|s| - 1] == [];
    } else {
      assert s[..|s| - 1] == Show(n / 10);
      DecimalValueOfShow(n / 10);
    }
  }

  lemma {:induction false} LeadingDigitsOfNumber(x: string, tail: string)
    requires AllDigits(x) && EndsNumber(tail)
    ensures LeadingDigits(x + tail) == x
  {
    if x != [] {
      assert (x + tail)[1..] == x[1..] + tail;
      LeadingDigitsOfNumber(x[1..], tail);
    }
  }

  /** Reading back a printed number, whatever non-digit text follows it. */
  lemma CastOfShow(n: nat, tail: string)
    requires EndsNumber(tail)
    ensures CastUnsigned(Show(n) + tail) == n
  {
    LeadingDigitsOfNumber(Show(n), tail);
    DecimalValueOfShow(n);
  }

  /** The number an id in scope contributes: `replace(id, prefix, '')`
      read through the cast, with the prefix removed once. */
  function SuffixValue(id: string, prefix: string): nat
    requires prefix <= id
  {
    CastUnsigned(id[|prefix|..])
  }

  /** `m` is what `SELECT max(cast(replace(id, prefix, '') as unsigned))
      ... WHERE id LIKE prefix%` yields over `ids`: NULL when no id has the
      prefix, otherwise the largest suffix value. */
  ghost predicate IsMaxSuffix(ids: set<string>, prefix: string, m: Option<nat>) {
    match m
    case None => forall id :: id in ids ==> !(prefix <= id)
    case Some(v) =>
      && (exists id :: id in ids && prefix <= id && SuffixValue(id, prefix) == v)
      && (forall id :: id in ids && prefix <= id ==> SuffixValue(id, prefix) <= v)
  }

  /** The SQL aggregate, evaluated as a scan over the ids of the scope. */
  method MaxSuffix(ids: set<string>, prefix: string) returns (m: Option<nat>)
    ensures IsMaxSuffix(ids, prefix, m)
  {
    m := None;
    var rest := ids;
    while rest != {}
      invariant rest <= ids
      invariant IsMaxSuffix(ids - rest, prefix, m)
      decreases |rest|
    {
      var id :| id in rest;
      ghost var seen := ids - rest;
      assert ids - (rest - {id}) == seen + {id};
      if prefix <= id {
        var v := SuffixValue(id, prefix);
        if m.None? || m.value < v {
          m := Some(v);
        }
      }
      rest := rest - {id};
    }
    assert ids - rest == ids;
  }

  /** The number the next id receives. */
  function NextNumber(m: Option<nat>): nat {
    match m
    case None => 0
    case Some(v) => v + 1
  }

  /** The Python half of `_get_valid_sense_id` and `_get_valid_synset_id`:
      `prefix + str(max + 1)`, or `prefix + "0"` on NULL. */
  function IdFromMax(prefix: string, m: Option<nat>): (r: string)
    ensures prefix <= r && CastUnsigned(r[|prefix|..]) == NextNumber(m)
  {
    CastOfShow(NextNumber(m), "");
    assert (prefix + Show(NextNumber(m)))[|prefix|..] == Show(NextNumber(m)) + "";
    match m
    case None => prefix + "0"
    case Some(v) => prefix + Show(v + 1)
  }

  lemma IdFromMaxIsPrefixedNumber(prefix: string, m: Option<nat>)
    ensures IdFromMax(prefix, m) == prefix + Show(NextNumber(m))
  {
    if m.None? {
      assert Show(0) == "0";
    }
  }

  /** An allocated id (with any non-digit tail, such as the "-u" synset ids
      carry) has the prefix, reads back as the next number, is strictly
      above every number already in scope, and so is new to the scope. */
  lemma AllocatedIdIsFresh(ids: set<string>, prefix: string, m: Option<nat>, tail: string)
    requires IsMaxSuffix(ids, prefix, m)
    requires EndsNumber(tail)
    ensures prefix <= IdFromMax(prefix, m) + tail
    ensures SuffixValue(IdFromMax(prefix, m) + tail, prefix) == NextNumber(m)
    ensures forall id :: id in ids && prefix <= id ==> SuffixValue(id, prefix) < NextNumber(m)
    ensures IdFromMax(prefix, m) + tail !in ids
  {
    IdFromMaxIsPrefixedNumber(prefix, m);
    var newId := IdFromMax(prefix, m) + tail;
    assert newId == prefix + (Show(NextNumber(m)) + tail);
    assert newId[|prefix|..] == Show(NextNumber(m)) + tail;
    CastOfShow(NextNumber(m), tail);
  }

  /** After the allocated id is stored, the scope's maximum is exactly the
      number just handed out, so the next allocation is one higher. */
  lemma AllocationAdvances(ids: set<string>, prefix: string, m: Option<nat>, tail: string)
    requires IsMaxSuffix(ids, prefix, m)
    requires EndsNumber(tail)
    ensures IsMaxSuffix(ids + {IdFromMax(prefix, m) + tail}, prefix, Some(NextNumber(m)))
    ensures NextNumber(Some(NextNumber(m))) == NextNumber(m) + 1
  {
    AllocatedIdIsFresh(ids, prefix, m, tail);
    var newId := IdFromMax(prefix, m) + tail;
    assert newId in ids + {newId};
  }

  /** `id` is what allocation hands out in a scope holding `ids`, followed
      by `tail`. */
  ghost predicate IsAllocatedId(ids: set<string>, prefix: string, tail: string, id: string) {
    exists m :: IsMaxSuffix(ids, prefix, m) && id == IdFromMax(prefix, m) + tail
  }

  lemma AllocatedIdSpec(ids: set<string>, prefix: string, tail: string, id: string)
    requires IsAllocatedId(ids, prefix, tail, id) && EndsNumber(tail)
    ensures prefix <= id && id !in ids
    ensures forall other :: other in ids && prefix <= other ==> SuffixValue(other, prefix) < SuffixValue(id, prefix)
  {
    var m :| IsMaxSuffix(ids, prefix, m) && id == IdFromMax(prefix, m) + tail;
    AllocatedIdIsFresh(ids, prefix, m, tail);
  }

  /** The suffix of the synset id `x-<n>-u` for a one-digit `n`. */
  lemma ExampleSuffix(n: nat, id: string)
    requires n < 10 && id == "x-" + [DigitChar(n)] + "-u"
    ensures "x-" <= id && SuffixValue(id, "x-") == n
  {
    assert id[2..] == Show(n) + "-u";
    CastOfShow(n, "-u");
  }

  /** The largest suffix among the synset ids "x-0-u", "x-1-u", "x-4-u". */
  lemma ExampleScope(ids: set<string>)
    requires ids == {"x-0-u", "x-1-u", "x-4-u"}
    ensures IsMaxSuffix(ids, "x-", Some(4))
  {
    ExampleSuffix(0, "x-0-u");
    ExampleSuffix(1, "x-1-u");
    ExampleSuffix(4, "x-4-u");
    assert "x-4-u" in ids;
    forall id | id in ids && "x-" <= id
      ensures SuffixValue(id, "x-") <= 4
    {
      assert id == "x-0-u" || id == "x-1-u" || id == "x-4-u";
    }
  }

  /** An empty scope hands out the number 0. */
  lemma FirstIdOfEmptyScope(prefix: string, tail: string, id: string)
    requires IsAllocatedId({}, prefix, tail, id)
    ensures id == prefix + "0" + tail
  {
  }

  /** Suffixes {0, 1, 4} in scope: the next synset id of lexicon "x" is
      "x-5-u". */
  lemma AllocationExample()
    ensures IsMaxSuffix({"x-0-u", "x-1-u", "x-4-u"}, "x-", Some(4))
    ensures IdFromMax("x-", Some(4)) + "-u" == "x-5-u"
  {
    ExampleScope({"x-0-u", "x-1-u", "x-4-u"});
    ExampleId(Some(4), "5");
  }

  /** An empty scope starts at "x-0-u". */
  lemma AllocationExampleEmpty()
    ensures IsMaxSuffix({}, "x-", None) && IdFromMax("x-", None) + "-u" == "x-0-u"
  {
    ExampleId(None, "0");
  }

  /** The synset id after a maximum below 9 is one digit. */
  lemma ExampleId(m: Option<nat>, digit: string)
    requires NextNumber(m) < 10 && digit == [DigitChar(NextNumber(m))]
    ensures IdFromMax("x-", m) + "-u" == "x-" + digit + "-u"
  {
  }

  /** `_get_valid_entity_id` as written: when no entry id starts with "w"
      the aggregate is NULL, yet the row `(None,)` is truthy, so the code
      computes `None + 1` and raises. */
  function EntryIdAsWritten(m: Option<nat>): (r: Result<string>)
    ensures r.Err? <==> m.None?
  {
    match m
    case None => Err(TypeError)
    case Some(v) => Ok("w" + Show(v + 1))
  }

  /** The first entry can never be allocated as written. */
  lemma EntryIdAsWrittenFailsOnEmptyTable()
    ensures IsMaxSuffix({}, "w", None)
    ensures EntryIdAsWritten(None) == Err(TypeError)
  {
  }

  /** Entry-id allocation as evidently intended: "w" followed by the next
      number, "w0" for the first entry. */
  function EntryId(m: Option<nat>): string {
    IdFromMax("w", m)
  }

  /** The corrected entry allocator agrees with the written one wherever the
      latter succeeds, and yields a new id everywhere. */
  lemma EntryIdCorrected(ids: set<string>, m: Option<nat>)
    requires IsMaxSuffix(ids, "w", m)
    ensures EntryIdAsWritten(m).Ok? ==> EntryIdAsWritten(m).value == EntryId(m)
    ensures EntryId(m) !in ids
    ensures forall id :: id in ids && "w" <= id ==> SuffixValue(id, "w") < SuffixValue(EntryId(m), "w")
  {
    AllocatedIdIsFresh(ids, "w", m, "");
    assert EntryId(m) + "" == EntryId(m);
  }
}
