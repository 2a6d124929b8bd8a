/**
 Typed lookups in an option table, each with the caller's fallback for an
 absent key, and what they return for a table built by `Table`.
 */
module Accessors {
  import opened Tokenizer
  import opened Values
  import opened OptionTable

  /** `GetBoolArg`: the stored value read as a boolean, else the fallback. */
  function GetBool(args: map<string, string>, key: string, fallback: bool): bool
  {
    if key in args then AsBool(args[key]) else fallback
  }

  /** `GetArg` with a string fallback: the stored value verbatim. */
  function GetString(args: map<string, string>, key: string, fallback: string): string
  {
    if key in args then args[key] else fallback
  }

  /** `GetArg` with an integer fallback: the stored value read as an
      integer, so a value that is not a number gives 0, not the fallback. */
  function GetInt(args: map<string, string>, key: string, fallback: int): int
  {
    if key in args then AsInt(args[key]) else fallback
  }

  /** Key `k` is neither supplied directly nor negated in the readings. */
  predicate Unmentioned(rs: seq<Reading>, k: string)
  {
    forall i :: 0 <= i < |rs| ==> !IsDirect(rs[i], k) && !Negates(rs[i], k)
  }

  /** A key never supplied gives the caller's fallback from every accessor. */
  lemma AbsentGivesFallback(rs: seq<Reading>, k: string, b: bool, s: string, n: int)
    requires Unmentioned(rs, k)
    ensures GetBool(TableOf(rs), k, b) == b
    ensures GetString(TableOf(rs), k, s) == s
    ensures GetInt(TableOf(rs), k, n) == n
  {
    TableKeys(rs, k);
  }

  /** A supplied key gives a value that does not depend on the fallback. */
  lemma SuppliedIgnoresFallback(rs: seq<Reading>, k: string, b: bool, s: string, n: int)
    requires exists i :: 0 <= i < |rs| && (IsDirect(rs[i], k) || Negates(rs[i], k))
    ensures GetBool(TableOf(rs), k, b) == GetBool(TableOf(rs), k, !b)
    ensures GetString(TableOf(rs), k, s) == GetString(TableOf(rs), k, "")
    ensures GetInt(TableOf(rs), k, n) == GetInt(TableOf(rs), k, 0)
  {
    TableKeys(rs, k);
  }

  /** Lookup is by exact key: with a single option token, every other key
      that it does not negate (`-DCTo` or `-fo` beside `-DCT`) is absent. */
  lemma ExactKey(f: Flag, k: string, b: bool, s: string, n: int)
    requires f.key != k && PositiveOf(f.key) != Some(k)
    ensures GetBool(TableOf([Some(f)]), k, b) == b
    ensures GetString(TableOf([Some(f)]), k, s) == s
    ensures GetInt(TableOf([Some(f)]), k, n) == n
  {
    AbsentGivesFallback([Some(f)], k, b, s, n);
  }

  /** A bare flag (or `-X=`) as the last direct occurrence: true as a
      boolean, "" as a string and 0 as an integer, whatever the fallback. */
  lemma BareFlag(rs: seq<Reading>, i: int, k: string, b: bool, s: string, n: int)
    requires LastDirectAt(rs, i, k) && rs[i].value.value == ""
    ensures GetBool(TableOf(rs), k, b)
    ensures GetString(TableOf(rs), k, s) == ""
    ensures GetInt(TableOf(rs), k, n) == 0
  {
    DirectWins(rs, i, k);
  }

  /** The last direct occurrence decides the boolean, whatever negations
      appear before or after it: "0" gives false, any other value true. */
  lemma DirectBool(rs: seq<Reading>, i: int, k: string, b: bool)
    requires LastDirectAt(rs, i, k)
    ensures GetBool(TableOf(rs), k, b) <==> rs[i].value.value != "0"
  {
    DirectWins(rs, i, k);
  }

  /** The string accessor returns the last direct value verbatim. */
  lemma DirectString(rs: seq<Reading>, i: int, k: string, s: string)
    requires LastDirectAt(rs, i, k)
    ensures GetString(TableOf(rs), k, s) == rs[i].value.value
  {
    DirectWins(rs, i, k);
  }

  /** The integer accessor reads a decimal value back as its number. */
  lemma DirectDecimal(rs: seq<Reading>, i: int, k: string, n: int, m: int)
    requires LastDirectAt(rs, i, k) && rs[i].value.value == Show(m)
    ensures GetInt(TableOf(rs), k, n) == m
  {
    DirectWins(rs, i, k);
    AsIntShow(m);
  }

  /** A value that is not a number makes the integer accessor return 0,
      not the fallback. */
  lemma DirectNonNumeric(rs: seq<Reading>, i: int, k: string, n: int)
    requires LastDirectAt(rs, i, k)
    requires var v := rs[i].value.value; v == [] || (!IsDigit(v[0]) && v[0] != '-' && v[0] != '+')
    ensures GetInt(TableOf(rs), k, n) == 0
  {
    DirectWins(rs, i, k);
    AsIntNonNumeric(rs[i].value.value);
  }

  /** Without a direct occurrence, the last negation `-noX=v` makes `X`
      true exactly when `v` is "0" (so `-noX` and `-noX=1` give false and
      `-noX=0` gives true), whatever the fallback. */
  lemma NegatedBool(rs: seq<Reading>, i: int, k: string, b: bool)
    requires forall j :: 0 <= j < |rs| ==> !IsDirect(rs[j], k)
    requires LastNegationAt(rs, i, k)
    ensures GetBool(TableOf(rs), k, b) <==> rs[i].value.value == "0"
  {
    NegationApplies(rs, i, k);
  }
}
