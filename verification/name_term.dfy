/** Feature names in the photon-ml linear-model format are written as a single string
    "name,term". This module models Python's `str.split(',')` and `','.join(...)`
    and the two conversions built on them in gdmix/util/io_utils.py. */
module NameTerm {
  import opened Results

  const Comma: char := ','

  /** Number of commas in `s`. */
  function Commas(s: string): nat
  {
    multiset(s)[Comma]
  }

  /** Python's `s.split(',')`: the pieces between consecutive commas; never empty. */
  function Split(s: string): (parts: seq<string>)
    ensures |parts| >= 1
    decreases |s|
  {
    if |s| == 0 then [""]
    else
      var rest := Split(s[1..]);
      if s[0] == Comma then [""] + rest
      else [[s[0]] + rest[0]] + rest[1..]
  }

  /** Python's `','.join(parts)`. */
  function Join(parts: seq<string>): string
  {
    if |parts| == 0 then ""
    else if |parts| == 1 then parts[0]
    else parts[0] + [Comma] + Join(parts[1..])
  }

  /** No piece contains the separator. */
  predicate CommaFree(parts: seq<string>)
  {
    forall i :: 0 <= i < |parts| ==> Comma !in parts[i]
  }

  /** Splitting one step: how the pieces of `s` relate to those of `s[1..]`. */
  lemma SplitStep(s: string)
    requires |s| > 0
    ensures s[0] == Comma ==> Split(s) == [""] + Split(s[1..])
    ensures s[0] != Comma ==> Split(s) == [[s[0]] + Split(s[1..])[0]] + Split(s[1..])[1..]
  {
  }

  /** Splitting undoes nothing and invents nothing: the pieces are comma-free, there is one
      more piece than there are commas, and joining them gives back the input. */
  lemma {:induction false} SplitJoin(s: string)
    ensures CommaFree(Split(s))
    ensures |Split(s)| == Commas(s) + 1
    ensures Join(Split(s)) == s
    decreases |s|
  {
    if |s| > 0 {
      SplitJoin(s[1..]);
      SplitStep(s);
      assert s == [s[0]] + s[1..];
      assert multiset(s) == multiset{s[0]} + multiset(s[1..]);
      var rest := Split(s[1..]);
      var parts := Split(s);
      if s[0] != Comma {
        CommaFreeCons(s[0], rest);
        JoinCons(s[0], rest);
      } else {
        assert parts[1..] == rest;
        assert forall i :: 1 <= i < |parts| ==> parts[i] == rest[i - 1];
      }
    }
  }

  /** Prepending a non-comma character to the first piece keeps the pieces comma-free. */
  lemma CommaFreeCons(c: char, rest: seq<string>)
    requires c != Comma && |rest| >= 1 && CommaFree(rest)
    ensures CommaFree([[c] + rest[0]] + rest[1..])
  {
    var parts := [[c] + rest[0]] + rest[1..];
    assert Comma !in parts[0] by {
      assert Comma !in rest[0];
      assert parts[0] == [c] + rest[0];
    }
    forall i | 1 <= i < |parts| ensures Comma !in parts[i] {
      assert parts[i] == rest[i];
    }
  }

  /** Concatenation is associative. Stated apart so that the proof of `JoinCons` uses it
      on exactly two instances instead of searching for them. */
  lemma Assoc<T>(a: seq<T>, b: seq<T>, c: seq<T>)
    ensures (a + b) + c == a + (b + c)
  {
  }

  /** Prepending a character to the first piece prepends it to the joined string. */
  lemma JoinCons(c: char, rest: seq<string>)
    requires |rest| >= 1
    ensures Join([[c] + rest[0]] + rest[1..]) == [c] + Join(rest)
  {
    var head := [c] + rest[0];
    var parts := [head] + rest[1..];
    if |rest| == 1 {
      assert parts == [head];
    } else {
      var j := Join(rest[1..]);
      assert Join(rest) == rest[0] + [Comma] + j;
      assert Join(parts) == head + [Comma] + j by {
        assert parts[1..] == rest[1..];
        assert parts[0] == head;
      }
      Assoc([c], rest[0], [Comma]);
      Assoc([c], rest[0] + [Comma], j);
    }
  }

  /** Joining comma-free pieces and splitting again gives back the pieces. */
  lemma {:induction false} JoinSplit(parts: seq<string>)
    requires |parts| >= 1
    requires CommaFree(parts)
    ensures Split(Join(parts)) == parts
    decreases |parts|, |parts[0]|
  {
    if |parts[0]| > 0 {
      var head := parts[0];
      var shorter := [head[1..]] + parts[1..];
      JoinSplit(shorter);
      assert Comma !in head[1..] by {
        forall k | 0 <= k < |head| - 1 ensures head[1..][k] != Comma {
          assert head[1..][k] == head[k + 1];
        }
      }
      assert CommaFree(shorter) by {
        forall i | 0 <= i < |shorter| ensures Comma !in shorter[i] {
          if i > 0 { assert shorter[i] == parts[i]; }
        }
      }
      var s := Join(parts);
      assert s[0] == head[0];
      assert head[0] != Comma;
      if |parts| == 1 {
        assert s[1..] == Join(shorter);
      } else {
        assert s[1..] == head[1..] + [Comma] + Join(parts[1..]);
        assert s[1..] == Join(shorter);
      }
      assert [head[0]] + head[1..] == head;
      assert Split(s) == [[head[0]] + shorter[0]] + shorter[1..];
    } else if |parts| == 1 {
    } else {
      var s := Join(parts);
      assert s == [Comma] + Join(parts[1..]);
      assert s[1..] == Join(parts[1..]);
      JoinSplit(parts[1..]);
      assert Split(s) == [""] + parts[1..];
      assert parts == [parts[0]] + parts[1..];
    }
  }

  /** `name_term_to_string`: `','.join([name, term])`, so the comma is written even when
      the term is empty. */
  function ToString(name: string, term: string): string
  {
    name + [Comma] + term
  }

  /** The printed string has exactly the commas of its two parts plus the separator. */
  lemma ToStringCommas(name: string, term: string)
    ensures Commas(ToString(name, term)) == Commas(name) + 1 + Commas(term)
  {
    assert multiset(name + [Comma] + term) == multiset(name) + multiset{Comma} + multiset(term);
  }

  /** Two comma-free halves around one comma are determined by the whole. */
  lemma SplitPointUnique(a: string, b: string, c: string, d: string)
    requires Comma !in a && Comma !in b && Comma !in c && Comma !in d
    requires a + [Comma] + b == c + [Comma] + d
    ensures a == c && b == d
  {
    var s := a + [Comma] + b;
    assert s[|a|] == Comma && s[|c|] == Comma;
    assert |a| == |c|;
    assert a == s[..|a|] && c == s[..|c|];
    assert b == s[|a| + 1..] && d == s[|c| + 1..];
  }

  /** `name_term_from_string`: split at the comma. With no comma the whole string is the
      name and the term is empty; with one comma the two sides are the name and the term;
      with more than one comma the assertion fails. */
  function FromString(s: string): (r: Result<(string, string)>)
    ensures r.Err? <==> Commas(s) > 1
    ensures Commas(s) == 0 ==> r == Ok((s, ""))
    ensures Commas(s) == 1 ==>
      && r.Ok?
      && Comma !in r.value.0 && Comma !in r.value.1
      && ToString(r.value.0, r.value.1) == s
  {
    SplitJoin(s);
    var parts := Split(s);
    if |parts| > 2 then
      Err("One ',' expected, but found more in " + s + ".")
    else if |parts| == 2 then
      assert Comma !in parts[0] && Comma !in parts[1];
      Ok((parts[0], parts[1]))
    else
      assert s == parts[0];
      Ok((parts[0], ""))
  }

  /** Round trip: a comma-free name and term survive printing and parsing, including an
      empty term. */
  lemma ToStringFromString(name: string, term: string)
    requires Comma !in name && Comma !in term
    ensures FromString(ToString(name, term)) == Ok((name, term))
  {
    var s := ToString(name, term);
    ToStringCommas(name, term);
    assert multiset(name)[Comma] == 0 && multiset(term)[Comma] == 0;
    var r := FromString(s);
    assert s == name + [Comma] + term;
    SplitPointUnique(r.value.0, r.value.1, name, term);
  }

  /** The reverse direction holds only with exactly one comma: a string without a comma
      comes back with a trailing comma appended. */
  lemma FromStringToString(s: string)
    requires Commas(s) <= 1
    ensures FromString(s).Ok?
    ensures Commas(s) == 1 ==> ToString(FromString(s).value.0, FromString(s).value.1) == s
    ensures Commas(s) == 0 ==> ToString(FromString(s).value.0, FromString(s).value.1) == s + [Comma]
  {
  }
}
