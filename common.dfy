/**
  Values and helpers shared by the catalog model: optional values (the
  source's nullable fields), the store's natural key order, key selection
  and lookup over a keyed store, and the case-insensitive substring match
  used by the title and author searches.
*/
module Common {

  /** A nullable value: None stands for Java's null. */
  datatype Option<+T> = None | Some(value: T) {
    /** The value, or `default` when absent. */
    function GetOr(default: T): T {
      match this
      case Some(v) => v
      case None => default
    }
  }

  /** A calendar date (java.time.LocalDate), kept opaque as a day number. */
  type Date = int

  /** Strictly ascending keys: no key repeats. */
  ghost predicate Increasing(s: seq<nat>) {
    forall i, j :: 0 <= i < j < |s| ==> s[i] < s[j]
  }

  /** The keys of m below n in ascending order: the store's primary-key order. */
  function KeysBelow<V>(m: map<nat, V>, n: nat): (r: seq<nat>)
    ensures forall k :: k in r <==> k in m && k < n
    ensures forall i :: 0 <= i < |r| ==> r[i] < n
    ensures Increasing(r)
  {
    if n == 0 then []
    else KeysBelow(m, n - 1) + (if n - 1 in m then [n - 1] else [])
  }

  /** The keys of `ids` that are present in m and whose value satisfies p, in the order of `ids`. */
  function Select<V>(ids: seq<nat>, m: map<nat, V>, p: V -> bool): (r: seq<nat>)
    ensures forall k :: k in r <==> k in ids && k in m && p(m[k])
    ensures Increasing(ids) ==> Increasing(r)
  {
    if ids == [] then []
    else
      var rest := Select(ids[1..], m, p);
      if ids[0] in m && p(m[ids[0]]) then
        IncreasingTail(ids);
        IncreasingCons(ids, rest);
        [ids[0]] + rest
      else
        IncreasingTail(ids);
        rest
  }

  lemma IncreasingTail(s: seq<nat>)
    requires s != []
    ensures Increasing(s) ==> Increasing(s[1..])
  {
  }

  lemma IncreasingCons(ids: seq<nat>, rest: seq<nat>)
    requires ids != [] && forall k :: k in rest ==> k in ids[1..]
    ensures Increasing(ids) && Increasing(rest) ==> Increasing([ids[0]] + rest)
  {
    if Increasing(ids) && Increasing(rest) {
      var r := [ids[0]] + rest;
      forall i, j | 0 <= i < j < |r| ensures r[i] < r[j] {
        assert r[j] == rest[j - 1];
        if i == 0 {
          assert rest[j - 1] in ids[1..];
          var t :| 0 <= t < |ids[1..]| && ids[1..][t] == rest[j - 1];
          assert ids[t + 1] == r[j];
        } else {
          assert r[i] == rest[i - 1];
        }
      }
    }
  }

  /** The first key of `ids` present in m whose value satisfies p. */
  function FirstWhere<V>(ids: seq<nat>, m: map<nat, V>, p: V -> bool): (r: Option<nat>)
    ensures r.Some? ==> r.value in ids && r.value in m && p(m[r.value])
    ensures r.None? ==> forall k :: k in ids && k in m ==> !p(m[k])
  {
    if ids == [] then None
    else if ids[0] in m && p(m[ids[0]]) then Some(ids[0])
    else FirstWhere(ids[1..], m, p)
  }

  /** The set of elements of a key sequence. */
  function Elems(s: seq<nat>): set<nat> {
    set k | k in s
  }

  /** An ascending sequence has as many elements as its set of elements. */
  lemma {:induction false} IncreasingCardinality(s: seq<nat>)
    requires Increasing(s)
    ensures |Elems(s)| == |s|
  {
    if s != [] {
      var tail := s[1..];
      IncreasingTail(s);
      IncreasingCardinality(tail);
      assert s[0] !in tail;
      assert Elems(s) == Elems(tail) + {s[0]} by {
        assert s == [s[0]] + tail;
      }
    }
  }

  /** ASCII upper-case letters folded to lower case; every other character is kept. */
  function LowerAscii(c: char): char {
    if 'A' <= c <= 'Z' then (c as int + 32) as char else c
  }

  function Lowered(s: string): string {
    seq(|s|, i requires 0 <= i < |s| => LowerAscii(s[i]))
  }

  /** p occurs in s as a contiguous run. */
  predicate IsSubstring(p: string, s: string)
    decreases |s|
  {
    p <= s || (|s| > 0 && IsSubstring(p, s[1..]))
  }

  /** The recursive substring test agrees with "p is a prefix of some suffix of s". */
  lemma {:induction false} IsSubstringAt(p: string, s: string)
    ensures IsSubstring(p, s) <==> exists i :: 0 <= i <= |s| && p <= s[i..]
    decreases |s|
  {
    if |s| > 0 {
      IsSubstringAt(p, s[1..]);
      if IsSubstring(p, s[1..]) {
        var i :| 0 <= i <= |s[1..]| && p <= s[1..][i..];
        assert s[1..][i..] == s[i + 1..];
      }
      if exists i :: 0 <= i <= |s| && p <= s[i..] {
        var i :| 0 <= i <= |s| && p <= s[i..];
        if i > 0 {
          assert s[1..][i - 1..] == s[i..];
        }
      }
    } else {
      if exists i :: 0 <= i <= |s| && p <= s[i..] {
        var i :| 0 <= i <= |s| && p <= s[i..];
        assert s[i..] == s;
      }
    }
  }

  /** Case-insensitive (ASCII) "s contains q", the ContainingIgnoreCase query. */
  predicate ContainsIgnoreCase(s: string, q: string) {
    IsSubstring(Lowered(q), Lowered(s))
  }

  /** The empty query matches every string, as LIKE '%%' does. */
  lemma EmptyQueryMatchesAll(s: string)
    ensures ContainsIgnoreCase(s, "")
  {
    assert Lowered("") == [];
  }

  /** Matching ignores the case of the query. */
  lemma QueryCaseIgnored(s: string, q: string)
    ensures ContainsIgnoreCase(s, q) <==> ContainsIgnoreCase(s, Lowered(q))
  {
    assert Lowered(Lowered(q)) == Lowered(q);
  }
}
