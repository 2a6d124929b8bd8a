/**
 Turning one raw command-line argument into an option key and its stored
 value: dash normalisation, the split at the first '=', and recognition of
 the negated spelling `-noName`.
 */
module Tokenizer {

  datatype Option<T> = None | Some(value: T)

  /** A recognised option token: `key` begins with a dash, `value` is what
      followed the first '=' ("" when there was no '='). */
  datatype Flag = Flag(key: string, value: string)

  /** Index of the first '=' in `s` at or after `from`, or `|s|` when
      there is none. */
  function IndexOfEq(s: string, from: nat): (r: nat)
    requires from <= |s|
    decreases |s| - from
    ensures from <= r <= |s|
    ensures r < |s| ==> s[r] == '='
    ensures forall j :: from <= j < r ==> s[j] != '='
  {
    if from == |s| then from
    else if s[from] == '=' then from
    else IndexOfEq(s, from + 1)
  }

  /** `-X=v` splits at the first '=' into key `-X` and value `v`; without
      '=' the whole body is the key and the value is empty. */
  function SplitAtEq(body: string): Flag
  {
    var i := IndexOfEq(body, 0);
    if i < |body| then Flag(body[..i], body[i + 1..]) else Flag(body, "")
  }

  /** The key never holds a '='; with a '=' in the body, key, "=" and value
      spell the body again; without one, the body is the key. */
  lemma SplitAtEqSpec(body: string)
    ensures var f := SplitAtEq(body);
      && '=' !in f.key
      && ('=' in body ==> body == f.key + "=" + f.value)
      && ('=' !in body ==> f.key == body && f.value == "")
  {
    var i := IndexOfEq(body, 0);
    if i < |body| {
      assert body == body[..i] + "=" + body[i + 1..];
    }
  }

  /** The dash-prefixed text a token is read from: one of two leading dashes
      is dropped, so `--X` and `-X` are the same option. */
  function SingleDash(raw: string): string
  {
    if |raw| >= 2 && raw[0] == '-' && raw[1] == '-' then raw[1..] else raw
  }

  /** A token that begins with a dash becomes a `Flag`; any other token
      (positional, or empty) is not an option. */
  function Normalize(raw: string): (r: Option<Flag>)
    ensures r.Some? <==> |raw| > 0 && raw[0] == '-'
  {
    if |raw| > 0 && raw[0] == '-' then Some(SplitAtEq(SingleDash(raw))) else None
  }

  /** Every key read from a token begins with a dash and holds no '='. */
  lemma NormalizeKey(raw: string)
    requires |raw| > 0 && raw[0] == '-'
    ensures var f := Normalize(raw).value;
      |f.key| > 0 && f.key[0] == '-' && '=' !in f.key
  {
    var body := SingleDash(raw);
    var f := SplitAtEq(body);
    SplitAtEqSpec(body);
    assert body[0] == '-';
    if '=' in body {
      assert body == f.key + "=" + f.value;
      assert f.key != [] by { assert body[0] != '='; }
      assert body[0] == f.key[0];
    }
  }

  /** The reading of every token of an argument list, in order; a token
      that is not an option reads as `None`. */
  function Tokenize(argv: seq<string>): (r: seq<Option<Flag>>)
    ensures |r| == |argv|
    ensures forall i :: 0 <= i < |argv| ==> r[i] == Normalize(argv[i])
  {
    if argv == [] then [] else [Normalize(argv[0])] + Tokenize(argv[1..])
  }

  /** Key and value are recovered from a token exactly: after dropping a
      doubled leading dash, the token is the key, followed by "=" and the
      value when it had a '='. */
  lemma NormalizeRecovers(raw: string)
    requires |raw| > 0 && raw[0] == '-'
    ensures Normalize(raw).Some?
    ensures var f := Normalize(raw).value;
      && SingleDash(raw) == (if '=' in raw then f.key + "=" + f.value else f.key)
      && ('=' !in raw ==> f.value == "")
  {
    var body := SingleDash(raw);
    SplitAtEqSpec(body);
    assert '=' in raw <==> '=' in body by {
      if body != raw {
        assert raw == ['-'] + body;
      }
    }
  }

  /** Conversely, a key written with one or two dashes and a value is read
      back as that key and value. */
  lemma {:induction false} NormalizeWrites(key: string, value: string)
    requires |key| > 0 && key[0] == '-' && '=' !in key
    requires |key| < 2 || key[1] != '-'
    ensures Normalize(key + "=" + value) == Some(Flag(key, value))
    ensures Normalize("-" + key + "=" + value) == Some(Flag(key, value))
  {
    var t := key + "=" + value;
    assert SingleDash(t) == t;
    SplitKeyValue(key, value);
    assert SingleDash("-" + t) == t by { assert ("-" + t)[1..] == t; }
    assert ("-" + key + "=" + value) == "-" + t;
  }

  /** A bare key written with one or two dashes is read back as that key
      with the empty value. */
  lemma NormalizeWritesBare(key: string)
    requires |key| > 0 && key[0] == '-' && '=' !in key
    requires |key| < 2 || key[1] != '-'
    ensures Normalize(key) == Some(Flag(key, ""))
    ensures Normalize("-" + key) == Some(Flag(key, ""))
  {
    assert SingleDash(key) == key;
    assert SingleDash("-" + key) == key by { assert ("-" + key)[1..] == key; }
    SplitAtEqSpec(key);
  }

  /** The first '=' of `key + "=" + value` is the one after the key. */
  lemma {:induction false} SplitKeyValue(key: string, value: string)
    requires '=' !in key
    ensures SplitAtEq(key + "=" + value) == Flag(key, value)
  {
    var t := key + "=" + value;
    var i := IndexOfEq(t, 0);
    assert t[|key|] == '=';
    assert forall j :: 0 <= j < |key| ==> t[j] == key[j];
    assert i == |key|;
    assert t[..i] == key;
    assert t[i + 1..] == value;
  }

  /** `-` and `--` lead to the same reading of any body that does not itself
      begin with a dash. */
  lemma DoubleDash(body: string)
    requires |body| == 0 || body[0] != '-'
    ensures Normalize("--" + body) == Normalize("-" + body)
  {
    assert SingleDash("--" + body) == "-" + body by { assert ("--" + body)[1..] == "-" + body; }
    assert SingleDash("-" + body) == "-" + body;
  }

  /** The positive key named by a negated key `-noName` (Name not empty). */
  function PositiveOf(key: string): (r: Option<string>)
    ensures r.Some? <==> |key| > 3 && key[..3] == "-no"
    ensures r.Some? ==> |r.value| > 1 && r.value[0] == '-' && key == "-no" + r.value[1..]
  {
    if |key| > 3 && key[..3] == "-no" then
      assert key == "-no" + key[3..];
      Some("-" + key[3..])
    else
      None
  }

  /** Every non-empty name has exactly one negated spelling. */
  lemma NegatedSpelling(name: string)
    requires |name| > 0
    ensures PositiveOf("-no" + name) == Some("-" + name)
  {
    assert ("-no" + name)[..3] == "-no";
    assert ("-no" + name)[3..] == name;
  }
}
