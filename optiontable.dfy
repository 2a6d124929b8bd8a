/**
 The option table built from the readings of an argument list (program
 name excluded). Each recognised token writes its key directly, a later
 direct occurrence overwriting an earlier one; a negated token `-noX=v` in
 addition proposes a value for `-X`, and a proposal enters the table only
 when no direct occurrence of `-X` appears anywhere in the list.
 */
module OptionTable {
  import opened Tokenizer
  import opened Values

  type Reading = Option<Flag>

  /** The value a negation `-noX=v` proposes for `-X`: the opposite of `v`
      read as a boolean, spelled "0" or "1". */
  function NegationValue(v: string): (p: string)
    ensures AsBool(p) == !AsBool(v)
    ensures p == "0" || p == "1"
  {
    if AsBool(v) then "0" else "1"
  }

  /** Reading `r` is a direct occurrence of key `k`. */
  predicate IsDirect(r: Reading, k: string)
  {
    r.Some? && r.value.key == k
  }

  /** Reading `r` is a negation `-noName` whose positive key is `k`. */
  predicate Negates(r: Reading, k: string)
  {
    r.Some? && PositiveOf(r.value.key) == Some(k)
  }

  /** Reading `i` is the last direct occurrence of `k` in `rs`. */
  predicate LastDirectAt(rs: seq<Reading>, i: int, k: string)
  {
    && 0 <= i < |rs|
    && IsDirect(rs[i], k)
    && forall j :: i < j < |rs| ==> !IsDirect(rs[j], k)
  }

  /** Reading `i` is the last negation of `k` in `rs`. */
  predicate LastNegationAt(rs: seq<Reading>, i: int, k: string)
  {
    && 0 <= i < |rs|
    && Negates(rs[i], k)
    && forall j :: i < j < |rs| ==> !Negates(rs[j], k)
  }

  /** One step of the direct pass: a recognised token overwrites its key. */
  function Ingest(direct: map<string, string>, r: Reading): map<string, string>
  {
    match r
    case Some(f) => direct[f.key := f.value]
    case None => direct
  }

  /** One step of the negation pass: a negated token records the value it
      proposes for its positive key, a later negation overwriting. */
  function Propose(proposals: map<string, string>, r: Reading): map<string, string>
  {
    match r
    case Some(f) =>
      (match PositiveOf(f.key)
       case Some(k) => proposals[k := NegationValue(f.value)]
       case None => proposals)
    case None => proposals
  }

  /** The direct entries of `rs`, left to right. */
  function Direct(rs: seq<Reading>): map<string, string>
  {
    if rs == [] then map[] else Ingest(Direct(rs[..|rs| - 1]), rs[|rs| - 1])
  }

  /** The proposals of the negations in `rs`, left to right. */
  function Proposals(rs: seq<Reading>): map<string, string>
  {
    if rs == [] then map[] else Propose(Proposals(rs[..|rs| - 1]), rs[|rs| - 1])
  }

  /** Proposals fill in only the keys that have no direct entry. */
  function Overlay(direct: map<string, string>, proposals: map<string, string>): (t: map<string, string>)
    ensures t.Keys == direct.Keys + proposals.Keys
    ensures forall k :: k in direct ==> t[k] == direct[k]
    ensures forall k :: k in proposals && k !in direct ==> t[k] == proposals[k]
  {
    proposals + direct
  }

  /** The option table of a sequence of readings. */
  function TableOf(rs: seq<Reading>): map<string, string>
  {
    Overlay(Direct(rs), Proposals(rs))
  }

  /** The option table of an argument list. */
  function Table(argv: seq<string>): map<string, string>
  {
    TableOf(Tokenize(argv))
  }

  /** The last direct occurrence of a key decides its direct entry. */
  lemma {:induction false} DirectLast(rs: seq<Reading>, i: int, k: string)
    requires LastDirectAt(rs, i, k)
    ensures k in Direct(rs) && Direct(rs)[k] == rs[i].value.value
  {
    var init := rs[..|rs| - 1];
    if i < |rs| - 1 {
      assert !IsDirect(rs[|rs| - 1], k);
      assert LastDirectAt(init, i, k) by {
        forall j | i < j < |init| ensures !IsDirect(init[j], k) {
          assert init[j] == rs[j];
        }
      }
      DirectLast(init, i, k);
    }
  }

  /** A key has a direct entry exactly when it occurs directly. */
  lemma {:induction false} DirectKeys(rs: seq<Reading>, k: string)
    ensures k in Direct(rs) <==> exists i :: 0 <= i < |rs| && IsDirect(rs[i], k)
  {
    if rs != [] {
      var init, last := rs[..|rs| - 1], rs[|rs| - 1];
      DirectKeys(init, k);
      if k in Direct(rs) {
        if !IsDirect(last, k) {
          var i :| 0 <= i < |init| && IsDirect(init[i], k);
          assert rs[i] == init[i];
        }
      } else {
        forall i | 0 <= i < |rs| ensures !IsDirect(rs[i], k) {
          if i < |init| { assert rs[i] == init[i]; }
        }
      }
    }
  }

  /** The last negation of a key decides its proposal. */
  lemma {:induction false} ProposalLast(rs: seq<Reading>, i: int, k: string)
    requires LastNegationAt(rs, i, k)
    ensures k in Proposals(rs) && Proposals(rs)[k] == NegationValue(rs[i].value.value)
  {
    var init := rs[..|rs| - 1];
    if i < |rs| - 1 {
      assert !Negates(rs[|rs| - 1], k);
      assert LastNegationAt(init, i, k) by {
        forall j | i < j < |init| ensures !Negates(init[j], k) {
          assert init[j] == rs[j];
        }
      }
      ProposalLast(init, i, k);
    }
  }

  /** A key has a proposal exactly when some token negates it. */
  lemma {:induction false} ProposalKeys(rs: seq<Reading>, k: string)
    ensures k in Proposals(rs) <==> exists i :: 0 <= i < |rs| && Negates(rs[i], k)
  {
    if rs != [] {
      var init, last := rs[..|rs| - 1], rs[|rs| - 1];
      ProposalKeys(init, k);
      if k in Proposals(rs) {
        if !Negates(last, k) {
          var i :| 0 <= i < |init| && Negates(init[i], k);
          assert rs[i] == init[i];
        }
      } else {
        forall i | 0 <= i < |rs| ensures !Negates(rs[i], k) {
          if i < |init| { assert rs[i] == init[i]; }
        }
      }
    }
  }

  /** A key is in the table exactly when it occurs directly or negated. */
  lemma TableKeys(rs: seq<Reading>, k: string)
    ensures k in TableOf(rs) <==>
      exists i :: 0 <= i < |rs| && (IsDirect(rs[i], k) || Negates(rs[i], k))
  {
    DirectKeys(rs, k);
    ProposalKeys(rs, k);
    if exists i :: 0 <= i < |rs| && (IsDirect(rs[i], k) || Negates(rs[i], k)) {
      var i :| 0 <= i < |rs| && (IsDirect(rs[i], k) || Negates(rs[i], k));
      assert IsDirect(rs[i], k) || Negates(rs[i], k);
    }
  }

  /** A direct occurrence beats every negation, wherever the negations
      stand: the table holds the value of the last direct occurrence. */
  lemma DirectWins(rs: seq<Reading>, i: int, k: string)
    requires LastDirectAt(rs, i, k)
    ensures k in TableOf(rs) && TableOf(rs)[k] == rs[i].value.value
  {
    DirectLast(rs, i, k);
  }

  /** With no direct occurrence, the last negation decides the value. */
  lemma NegationApplies(rs: seq<Reading>, i: int, k: string)
    requires forall j :: 0 <= j < |rs| ==> !IsDirect(rs[j], k)
    requires LastNegationAt(rs, i, k)
    ensures k in TableOf(rs) && TableOf(rs)[k] == NegationValue(rs[i].value.value)
  {
    DirectKeys(rs, k);
    ProposalLast(rs, i, k);
  }

  /** Writing one option token with two dashes instead of one leaves the
      whole table unchanged. */
  lemma DoubleDashTable(argv: seq<string>, i: int, body: string)
    requires 0 <= i < |argv| && argv[i] == "-" + body
    requires |body| == 0 || body[0] != '-'
    ensures Table(argv[i := "--" + body]) == Table(argv)
  {
    DoubleDash(body);
    assert Tokenize(argv[i := "--" + body]) == Tokenize(argv);
  }

  /** The process-wide option table, as an explicit object. */
  class Options {
    /** Normalised key to stored value. */
    var args: map<string, string>

    constructor ()
      ensures args == map[]
    {
      args := map[];
    }

    /** Replaces the table by the one `argv` describes: a pass over the
        tokens collects direct entries and negation proposals, then the
        proposals are overlaid where no direct entry exists. */
    method Parse(argv: seq<string>)
      modifies this
      ensures args == Table(argv)
    {
      ghost var rs := Tokenize(argv);
      var direct: map<string, string> := map[];
      var proposals: map<string, string> := map[];
      var i := 0;
      while i < |argv|
        invariant 0 <= i <= |argv|
        invariant direct == Direct(rs[..i])
        invariant proposals == Proposals(rs[..i])
      {
        var r := Normalize(argv[i]);
        assert rs[..i + 1][..i] == rs[..i] && rs[..i + 1][i] == r;
        direct := Ingest(direct, r);
        proposals := Propose(proposals, r);
        i := i + 1;
      }
      assert rs[..i] == rs;
      args := Overlay(direct, proposals);
    }
  }
}
