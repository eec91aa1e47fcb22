/** Python built-ins the handlers rely on (optional values, the exceptions they
    tell apart, calls that may raise, `str.lower` and the dict built from
    `zip`), with the few general sequence facts they need (`Min`, `Distinct`). */
module Python {

  datatype Option<T> = None | Some(value: T)

  /** The exception kinds the handlers tell apart; `message` is what `str(e)` gives. */
  datatype Exception =
    | ValueError(message: string)
    | IndexError(message: string)
    | OtherError(message: string)

  /** The outcome of a call that either returns a value or raises. */
  datatype Outcome<T> = Returned(value: T) | Raised(exc: Exception)

  function Str(e: Exception): string
  {
    e.message
  }

  predicate Distinct<T(==)>(s: seq<T>)
  {
    forall i, j :: 0 <= i < j < |s| ==> s[i] != s[j]
  }

  /** A sequence without repeats has as many distinct elements as positions. */
  lemma {:induction false} DistinctElementCount<T>(s: seq<T>)
    requires Distinct(s)
    ensures |set x | x in s| == |s|
  {
    if s != [] {
      var rest := s[1..];
      assert Distinct(rest) by {
        forall i, j | 0 <= i < j < |rest| ensures rest[i] != rest[j] {
          assert rest[i] == s[i + 1] && rest[j] == s[j + 1];
        }
      }
      DistinctElementCount(rest);
      assert s[0] !in rest by {
        forall i | 0 <= i < |rest| ensures rest[i] != s[0] {
          assert rest[i] == s[i + 1];
        }
      }
      assert (set x | x in s) == (set x | x in rest) + {s[0]};
    }
  }

  function Min(a: int, b: int): int
  {
    if a <= b then a else b
  }

  predicate IsUpper(c: char)
  {
    'A' <= c <= 'Z'
  }

  function LowerChar(c: char): char
  {
    if IsUpper(c) then (c as int + 32) as char else c
  }

  /** `s.lower()` on the ASCII letters: every upper-case letter becomes its
      lower-case partner and every other character is kept. */
  function Lower(s: string): (r: string)
    ensures |r| == |s|
    ensures forall i :: 0 <= i < |s| ==> !IsUpper(r[i])
    ensures forall i :: 0 <= i < |s| && !IsUpper(s[i]) ==> r[i] == s[i]
    ensures forall i :: 0 <= i < |s| && IsUpper(s[i]) ==> r[i] as int == s[i] as int + 32
  {
    seq(|s|, i requires 0 <= i < |s| => LowerChar(s[i]))
  }

  /** Lowering twice is lowering once. */
  lemma LowerIdempotent(s: string)
    ensures Lower(Lower(s)) == Lower(s)
  {
  }

  /** Lowering commutes with taking a suffix. */
  lemma LowerSuffix(s: string, i: int)
    requires 0 <= i <= |s|
    ensures Lower(s[i..]) == Lower(s)[i..]
  {
  }

  /** `{k: v for k, v in zip(ks, vs)}`: `zip` stops at the shorter sequence
      and a later pair overrides an earlier one with the same key. */
  function ZipDict<K(==), V>(ks: seq<K>, vs: seq<V>): (m: map<K, V>)
    ensures m.Keys == set k | 0 <= k < Min(|ks|, |vs|) :: ks[k]
    decreases |ks|
  {
    if ks == [] || vs == [] then map[]
    else
      var rest := ZipDict(ks[1..], vs[1..]);
      assert rest.Keys == set k | 0 <= k < Min(|ks|, |vs|) - 1 :: ks[1..][k];
      var m := map[ks[0] := vs[0]] + rest;
      assert m.Keys == set k | 0 <= k < Min(|ks|, |vs|) :: ks[k] by {
        forall x | x in m.Keys ensures x in set k | 0 <= k < Min(|ks|, |vs|) :: ks[k] {
          if x != ks[0] {
            var k :| 0 <= k < Min(|ks|, |vs|) - 1 && ks[1..][k] == x;
            assert ks[k + 1] == x;
          }
        }
        forall k | 0 <= k < Min(|ks|, |vs|) ensures ks[k] in m.Keys {
          if k > 0 {
            assert ks[k] == ks[1..][k - 1];
          }
        }
      }
      m
  }

  /** With distinct keys every zipped pair survives: key `ks[k]` maps to `vs[k]`. */
  lemma {:induction false} ZipDictAt<K, V>(ks: seq<K>, vs: seq<V>, k: int)
    requires Distinct(ks)
    requires 0 <= k < Min(|ks|, |vs|)
    ensures ks[k] in ZipDict(ks, vs) && ZipDict(ks, vs)[ks[k]] == vs[k]
    decreases |ks|
  {
    if k > 0 {
      assert Distinct(ks[1..]) by {
        forall i, j | 0 <= i < j < |ks[1..]| ensures ks[1..][i] != ks[1..][j] {
          assert ks[1..][i] == ks[i + 1] && ks[1..][j] == ks[j + 1];
        }
      }
      ZipDictAt(ks[1..], vs[1..], k - 1);
      assert ks[1..][k - 1] == ks[k];
    }
  }
}
