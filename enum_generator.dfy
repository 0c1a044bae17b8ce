/**
 * The bookkeeping of the protobuf enum generator for j2objc: which enum
 * values are canonical and which are aliases, the ordinals the header gives
 * the canonical values, and the counts and wrapped rows of the source's
 * initialiser tables.
 */
module EnumGeneration {
  import opened RowWrapping

  /** One declared enum value, as EnumValueDescriptor gives it. */
  datatype EnumValue = EnumValue(name: string, number: int)

  /**
   * An alias: the value (by its declaration index) and the canonical value
   * FindValueByNumber gave for its number.
   */
  datatype Alias = Alias(value: nat, canonicalValue: nat)

  /**
   * What EnumDescriptor::FindValueByNumber promises for the number of a
   * declared value: the index of a declared value with that number. Which of
   * several values sharing a number it picks is left open.
   */
  ghost predicate FindsByNumber(values: seq<EnumValue>, find: int -> nat) {
    forall i :: 0 <= i < |values| ==>
      find(values[i].number) < |values| && values[find(values[i].number)].number == values[i].number
  }

  /** The canonical values among the first n, in declaration order. */
  function CanonicalValues(values: seq<EnumValue>, find: int -> nat, n: nat): (c: seq<nat>)
    requires n <= |values|
    ensures forall j :: 0 <= j < |c| ==> c[j] < n
  {
    if n == 0 then []
    else CanonicalValues(values, find, n - 1) + (if find(values[n - 1].number) == n - 1 then [n - 1] else [])
  }

  /** The aliases among the first n values, in declaration order. */
  function Aliases(values: seq<EnumValue>, find: int -> nat, n: nat): (a: seq<Alias>)
    requires n <= |values|
    ensures forall j :: 0 <= j < |a| ==> a[j].value < n
  {
    if n == 0 then []
    else
      var c := find(values[n - 1].number);
      Aliases(values, find, n - 1) + (if c == n - 1 then [] else [Alias(n - 1, c)])
  }

  /**
   * Every value lands in exactly one of the two lists: among the canonical
   * values exactly when FindValueByNumber gives the value itself back, among
   * the aliases otherwise.
   */
  lemma PartitionExact(values: seq<EnumValue>, find: int -> nat, n: nat)
    requires n <= |values|
    ensures forall i :: 0 <= i < n ==>
      (i in CanonicalValues(values, find, n) <==> find(values[i].number) == i)
    ensures forall i :: 0 <= i < n ==>
      (IsAliased(Aliases(values, find, n), i) <==> find(values[i].number) != i)
    ensures |CanonicalValues(values, find, n)| + |Aliases(values, find, n)| == n
  {
    CanonicalMembership(values, find, n);
    AliasMembership(values, find, n);
    PartitionSizes(values, find, n);
  }

  /** Some alias of the list is for the value with index i. */
  predicate IsAliased(aliases: seq<Alias>, i: nat) {
    exists j :: 0 <= j < |aliases| && aliases[j].value == i
  }

  lemma {:induction false} CanonicalMembership(values: seq<EnumValue>, find: int -> nat, n: nat)
    requires n <= |values|
    ensures forall i :: 0 <= i < n ==>
      (i in CanonicalValues(values, find, n) <==> find(values[i].number) == i)
  {
    if n > 0 {
      CanonicalMembership(values, find, n - 1);
    }
  }

  lemma {:induction false} AliasMembership(values: seq<EnumValue>, find: int -> nat, n: nat)
    requires n <= |values|
    ensures forall i :: 0 <= i < n ==>
      (IsAliased(Aliases(values, find, n), i) <==> find(values[i].number) != i)
  {
    if n > 0 {
      AliasMembership(values, find, n - 1);
      var a := Aliases(values, find, n);
      var a' := Aliases(values, find, n - 1);
      assert a[..|a'|] == a';
      forall i | 0 <= i < n
        ensures IsAliased(a, i) <==> find(values[i].number) != i
      {
        if i < n - 1 {
          if IsAliased(a, i) {
            var j :| 0 <= j < |a| && a[j].value == i;
            assert j < |a'| && a'[j].value == i;
          }
          if find(values[i].number) != i {
            var j :| 0 <= j < |a'| && a'[j].value == i;
            assert a[j].value == i;
          }
        } else if find(values[i].number) != i {
          assert a[|a| - 1].value == i;
        }
      }
    }
  }

  lemma {:induction false} PartitionSizes(values: seq<EnumValue>, find: int -> nat, n: nat)
    requires n <= |values|
    ensures |CanonicalValues(values, find, n)| + |Aliases(values, find, n)| == n
  {
    if n > 0 {
      PartitionSizes(values, find, n - 1);
    }
  }

  /** Both lists keep declaration order: their value indices strictly increase. */
  lemma {:induction false} DeclarationOrder(values: seq<EnumValue>, find: int -> nat, n: nat)
    requires n <= |values|
    ensures forall j, k :: 0 <= j < k < |CanonicalValues(values, find, n)| ==>
      CanonicalValues(values, find, n)[j] < CanonicalValues(values, find, n)[k]
    ensures forall j, k :: 0 <= j < k < |Aliases(values, find, n)| ==>
      Aliases(values, find, n)[j].value < Aliases(values, find, n)[k].value
  {
    if n > 0 {
      DeclarationOrder(values, find, n - 1);
    }
  }

  /**
   * Each alias's canonical value has the alias's number and is itself one of
   * the canonical values.
   */
  lemma AliasTargets(values: seq<EnumValue>, find: int -> nat)
    requires FindsByNumber(values, find)
    ensures forall j :: 0 <= j < |Aliases(values, find, |values|)| ==>
      var alias := Aliases(values, find, |values|)[j];
      && alias.canonicalValue < |values|
      && values[alias.canonicalValue].number == values[alias.value].number
      && alias.canonicalValue in CanonicalValues(values, find, |values|)
  {
    AliasesRecordFind(values, find, |values|);
    PartitionExact(values, find, |values|);
  }

  /** Each alias records what FindValueByNumber gave for its own number. */
  lemma {:induction false} AliasesRecordFind(values: seq<EnumValue>, find: int -> nat, n: nat)
    requires n <= |values|
    ensures forall j :: 0 <= j < |Aliases(values, find, n)| ==>
      Aliases(values, find, n)[j].canonicalValue == find(values[Aliases(values, find, n)[j].value].number)
  {
    if n > 0 {
      AliasesRecordFind(values, find, n - 1);
    }
  }

  /** No two canonical values share a number. */
  lemma CanonicalNumbersDistinct(values: seq<EnumValue>, find: int -> nat)
    ensures var c := CanonicalValues(values, find, |values|);
      forall j, k :: 0 <= j < k < |c| ==> values[c[j]].number != values[c[k]].number
  {
    var c := CanonicalValues(values, find, |values|);
    CanonicalMembership(values, find, |values|);
    DeclarationOrder(values, find, |values|);
    forall j, k | 0 <= j < k < |c| ensures values[c[j]].number != values[c[k]].number {
      assert c[j] in c && c[k] in c;
      assert find(values[c[j]].number) == c[j] && find(values[c[k]].number) == c[k];
    }
  }

  /** Some value listed in c has the given number. */
  predicate HasCanonicalWithNumber(values: seq<EnumValue>, c: seq<nat>, number: int) {
    exists j :: 0 <= j < |c| && c[j] < |values| && values[c[j]].number == number
  }

  /** Every declared number is the number of some canonical value. */
  lemma CanonicalNumbersCover(values: seq<EnumValue>, find: int -> nat)
    requires FindsByNumber(values, find)
    ensures forall i :: 0 <= i < |values| ==>
      HasCanonicalWithNumber(values, CanonicalValues(values, find, |values|), values[i].number)
  {
    var c := CanonicalValues(values, find, |values|);
    CanonicalMembership(values, find, |values|);
    forall i | 0 <= i < |values|
      ensures HasCanonicalWithNumber(values, c, values[i].number)
    {
      var f := find(values[i].number);
      assert find(values[f].number) == f;
      assert f in c;
      var j :| 0 <= j < |c| && c[j] == f;
      assert values[c[j]].number == values[i].number;
    }
  }

  /** The decimal digits of n (SimpleItoa for a non-negative number). */
  function Digits(n: nat): (s: string)
    ensures |s| >= 1
  {
    if n < 10 then ["0123456789"[n]] else Digits(n / 10) + ["0123456789"[n % 10]]
  }

  /** SimpleItoa: the decimal form of n, with a leading minus when negative (see ItoaReadsBack). */
  function Itoa(n: int): (s: string)
    ensures |s| >= 1
    ensures n < 0 <==> s[0] == '-'
  {
    if n < 0 then "-" + Digits(-n)
    else
      var d := Digits(n);
      assert IsDecimalDigit(d[0]) by { DigitsAreDigits(n); }
      d
  }

  /**
   * The text of n is its sign followed by decimal digits only, which read back
   * as the absolute value of n, with no leading zero unless n is 0.
   */
  lemma ItoaReadsBack(n: int)
    ensures n >= 0 ==> DecimalValue(Itoa(n)) == n
    ensures n < 0 ==> DecimalValue(Itoa(n)[1..]) == -n
    ensures n != 0 ==> Itoa(n)[if n < 0 then 1 else 0] != '0'
    ensures forall i :: (if n < 0 then 1 else 0) <= i < |Itoa(n)| ==> IsDecimalDigit(Itoa(n)[i])
  {
    if n < 0 {
      var k: nat := -n;
      DigitsValue(k);
      DigitsAreDigits(k);
      assert Itoa(n)[1..] == Digits(k);
    } else {
      DigitsValue(n);
      DigitsAreDigits(n);
    }
  }

  /** A character '0' to '9'. */
  predicate IsDecimalDigit(c: char) {
    '0' <= c <= '9'
  }

  /** The number a string of decimal digits stands for, most significant first. */
  function DecimalValue(s: string): int {
    if s == [] then 0 else 10 * DecimalValue(s[..|s| - 1]) + (s[|s| - 1] as int - '0' as int)
  }

  /** Reading the digits of n back gives n, and they start with 0 only for 0 itself. */
  lemma {:induction false} DigitsValue(n: nat)
    ensures DecimalValue(Digits(n)) == n
    ensures n != 0 ==> Digits(n)[0] != '0'
  {
    if n < 10 {
      DigitChar(n);
    } else {
      var d := Digits(n);
      var init := Digits(n / 10);
      DigitsValue(n / 10);
      DigitChar(n % 10);
      assert d[..|d| - 1] == init;
      assert d[0] == init[0];
    }
  }

  /** The digit character for k stands for k. */
  lemma DigitChar(k: nat)
    requires k < 10
    ensures "0123456789"[k] as int - '0' as int == k
    ensures k != 0 ==> "0123456789"[k] != '0'
    ensures IsDecimalDigit("0123456789"[k])
  {
  }

  lemma {:induction false} DigitsAreDigits(n: nat)
    ensures forall i :: 0 <= i < |Digits(n)| ==> IsDecimalDigit(Digits(n)[i])
  {
    if n >= 10 {
      DigitsAreDigits(n / 10);
    }
  }

  /** Characters one entry ` @"name",` of the names table takes. */
  function NameEntryWidth(name: string): nat {
    |name| + 5
  }

  /** Characters one entry ` value,` of the int_values table takes. */
  function ValueEntryWidth(value: string): nat {
    |value| + 2
  }

  /** One `name = ordinal,` line of the header's NS_ENUM. */
  datatype Enumerator = Enumerator(value: nat, ordinal: nat)

  /** What GenerateHeader prints per canonical value: enumerators, `#define ..._VALUE` pairs and constant names. */
  datatype HeaderDecls = HeaderDecls(enumerators: seq<Enumerator>, defines: seq<(string, int)>, constants: seq<string>)

  /** The counted and wrapped parts of GenerateSource: `$count$` and the rows of the two tables. */
  datatype SourceInit = SourceInit(count: nat, nameRows: seq<seq<string>>, valueRows: seq<seq<string>>)

  class EnumGenerator {
    /** The descriptor's values in declaration order. */
    const values: seq<EnumValue>
    /** EnumDescriptor::FindValueByNumber, as a value index. */
    const findValueByNumber: int -> nat
    /** canonical_values_ */
    var canonicalValues: seq<nat>
    /** aliases_ */
    var aliases: seq<Alias>

    ghost predicate Valid()
      reads this
    {
      && canonicalValues == CanonicalValues(values, findValueByNumber, |values|)
      && aliases == Aliases(values, findValueByNumber, |values|)
    }

    /**
     * EnumGenerator::EnumGenerator: each value in declaration order is
     * pushed onto the canonical values when FindValueByNumber gives it back
     * for its own number, and onto the aliases otherwise.
     */
    constructor (values: seq<EnumValue>, findValueByNumber: int -> nat)
      ensures this.values == values && this.findValueByNumber == findValueByNumber
      ensures Valid()
    {
      this.values := values;
      this.findValueByNumber := findValueByNumber;
      canonicalValues := [];
      aliases := [];
      new;
      var i := 0;
      while i < |values|
        invariant 0 <= i <= |values|
        invariant canonicalValues == CanonicalValues(values, findValueByNumber, i)
        invariant aliases == Aliases(values, findValueByNumber, i)
      {
        var canonical := findValueByNumber(values[i].number);
        if canonical == i {
          canonicalValues := canonicalValues + [i];
        } else {
          aliases := aliases + [Alias(i, canonical)];
        }
        i := i + 1;
      }
    }

    /**
     * EnumGenerator::GenerateHeader without its template text: the i-th
     * canonical value gets ordinal i in the NS_ENUM, and a `#define` of its
     * name to its number, and an enum constant.
     */
    method GenerateHeader() returns (h: HeaderDecls)
      requires Valid()
      ensures |h.enumerators| == |h.defines| == |h.constants| == |canonicalValues|
      ensures forall i :: 0 <= i < |canonicalValues| ==> h.enumerators[i] == Enumerator(canonicalValues[i], i)
      ensures forall i :: 0 <= i < |canonicalValues| ==>
        h.defines[i] == (values[canonicalValues[i]].name, values[canonicalValues[i]].number)
      ensures forall i :: 0 <= i < |canonicalValues| ==> h.constants[i] == values[canonicalValues[i]].name
    {
      var enumerators: seq<Enumerator> := [];
      for i := 0 to |canonicalValues|
        invariant |enumerators| == i
        invariant forall k :: 0 <= k < i ==> enumerators[k] == Enumerator(canonicalValues[k], k)
      {
        enumerators := enumerators + [Enumerator(canonicalValues[i], i)];
      }
      var defines: seq<(string, int)> := [];
      for i := 0 to |canonicalValues|
        invariant |defines| == i
        invariant forall k :: 0 <= k < i ==>
          defines[k] == (values[canonicalValues[k]].name, values[canonicalValues[k]].number)
      {
        var v := values[canonicalValues[i]];
        defines := defines + [(v.name, v.number)];
      }
      var constants: seq<string> := [];
      for i := 0 to |canonicalValues|
        invariant |constants| == i
        invariant forall k :: 0 <= k < i ==> constants[k] == values[canonicalValues[k]].name
      {
        constants := constants + [values[canonicalValues[i]].name];
      }
      h := HeaderDecls(enumerators, defines, constants);
    }

    /** The names of the canonical values, in order. */
    function CanonicalNames(): (names: seq<string>)
      reads this
      requires Valid()
      ensures |names| == |canonicalValues|
      ensures forall i :: 0 <= i < |names| ==> names[i] == values[canonicalValues[i]].name
    {
      var c, vs := canonicalValues, values;
      seq(|c|, i requires 0 <= i < |c| && c[i] < |vs| => vs[c[i]].name)
    }

    /** The decimal numbers of the canonical values, in order. */
    function CanonicalNumerals(): (numerals: seq<string>)
      reads this
      requires Valid()
      ensures |numerals| == |canonicalValues|
      ensures forall i :: 0 <= i < |numerals| ==> numerals[i] == Itoa(values[canonicalValues[i]].number)
    {
      var c, vs := canonicalValues, values;
      seq(|c|, i requires 0 <= i < |c| && c[i] < |vs| => Itoa(vs[c[i]].number))
    }

    /**
     * EnumGenerator::GenerateSource without its template text: the `$count$`
     * of the `_values_` array and of CGPInitializeEnumType is the number of
     * canonical values, and the names and int_values tables are wrapped
     * greedily at 80 characters.
     */
    method GenerateSource() returns (src: SourceInit)
      requires Valid()
      ensures src.count == |canonicalValues|
      ensures GreedyRows(CanonicalNames(), NameEntryWidth, src.nameRows)
      ensures GreedyRows(CanonicalNumerals(), ValueEntryWidth, src.valueRows)
    {
      var nameRows := WrapRows(CanonicalNames(), NameEntryWidth);
      var valueRows := WrapRows(CanonicalNumerals(), ValueEntryWidth);
      src := SourceInit(|canonicalValues|, nameRows, valueRows);
    }
  }
}
