/**
 The answer store: free-text answers addressed by (chapter, question)
 position. The component keys its answer object by the string
 `ch{chapter}_q{question}`; this module keys a map by the pair itself and
 proves that the string encoding is injective, so nothing is lost by it.
 */
module AnswerStore {

  /** (chapter index, question index) */
  type Key = (nat, nat)

  type Store = map<Key, string>

  /** Writes `text` under `k`, overwriting any earlier value and leaving every
      other key as it was (the object spread followed by one computed key). */
  function Upsert(m: Store, k: Key, text: string): (r: Store)
    ensures r.Keys == m.Keys + {k}
    ensures r[k] == text
    ensures forall k' :: k' in m && k' != k ==> r[k'] == m[k']
  {
    m[k := text]
  }

  /** `answers[key] || ''`: the stored text, or the empty string when the key
      is absent. A stored empty string is falsy too and also yields "", which
      is the same value, so the fallback only matters for absent keys. */
  function Lookup(m: Store, k: Key): (r: string)
    ensures k in m ==> r == m[k]
    ensures k !in m ==> r == ""
  {
    if k in m && m[k] != "" then m[k] else ""
  }

  /** Writing the same text twice under the same key is writing it once. */
  lemma UpsertIdempotent(m: Store, k: Key, text: string)
    ensures Upsert(Upsert(m, k, text), k, text) == Upsert(m, k, text)
  {
  }

  /** What one reads back after a write: the written text at that key, the
      old value everywhere else. */
  lemma LookupAfterUpsert(m: Store, k: Key, text: string, k': Key)
    ensures Lookup(Upsert(m, k, text), k') == if k' == k then text else Lookup(m, k')
  {
  }

  // ---------------------------------------------------------------------
  // The string key `ch{c}_q{q}`

  predicate IsDigit(c: char) {
    '0' <= c <= '9'
  }

  function DigitChar(d: nat): (c: char)
    requires d < 10
    ensures IsDigit(c)
    ensures c as int - '0' as int == d
  {
    "0123456789"[d]
  }

  predicate AllDigits(s: string) {
    forall i :: 0 <= i < |s| ==> IsDigit(s[i])
  }

  /** The number a string of decimal digits denotes, most significant digit
      first. */
  function DigitsValue(s: string): nat
    requires AllDigits(s)
    decreases |s|
  {
    if s == [] then 0
    else DigitsValue(s[..|s| - 1]) * 10 + (s[|s| - 1] as int - '0' as int)
  }

  /** Decimal rendering of a natural number: no sign, no leading zeros. This
      is how a template literal prints the small indices the component uses
      (JavaScript switches to exponent notation only from 10^21 on). */
  function Decimal(n: nat): (r: string)
    ensures |r| >= 1 && AllDigits(r)
    ensures DigitsValue(r) == n
    ensures n > 0 ==> r[0] != '0'
    ensures n == 0 ==> r == "0"
    ensures n >= 10 ==> |r| >= 2
    decreases n
  {
    if n < 10 then [DigitChar(n)]
    else
      var p := Decimal(n / 10);
      var r := p + [DigitChar(n % 10)];
      assert r[..|r| - 1] == p;
      r
  }

  /** The first position at or after `i` holding `c`, or `|s|` if none. */
  function IndexOf(s: string, c: char, i: nat): (j: nat)
    requires i <= |s|
    ensures i <= j <= |s|
    ensures j < |s| ==> s[j] == c
    ensures forall m :: i <= m < j ==> s[m] != c
    decreases |s| - i
  {
    if i == |s| || s[i] == c then i else IndexOf(s, c, i + 1)
  }

  /** The template literal `ch${chapter}_q${question}`. Reading it back
      recovers the pair: the chapter digits run from after "ch" to the first
      '_', and the question digits follow "_q". */
  function KeyString(k: Key): (r: string)
    ensures |r| >= 6 && r[..2] == "ch"
    ensures var u := IndexOf(r, '_', 2);
      && u + 2 <= |r| && r[u..u + 2] == "_q"
      && AllDigits(r[2..u]) && DigitsValue(r[2..u]) == k.0
      && AllDigits(r[u + 2..]) && DigitsValue(r[u + 2..]) == k.1
  {
    var c, q := Decimal(k.0), Decimal(k.1);
    var r := "ch" + c + "_q" + q;
    var u := IndexOf(r, '_', 2);
    // the chapter digits hold no '_', and one follows them
    assert r[2 + |c|] == '_';
    assert forall m :: 2 <= m < 2 + |c| ==> r[m] == c[m - 2];
    assert u == 2 + |c|;
    assert r[2..u] == c && r[u..u + 2] == "_q" && r[u + 2..] == q;
    r
  }

  /** Distinct numbers print differently. */
  lemma {:induction false} DecimalInjective(a: nat, b: nat)
    ensures Decimal(a) == Decimal(b) ==> a == b
    decreases a
  {
    if Decimal(a) == Decimal(b) {
      var s := Decimal(a);
      if a < 10 && b < 10 {
        assert s[0] == DigitChar(a) && s[0] == DigitChar(b);
      } else if a >= 10 && b >= 10 {
        assert s[|s| - 1] == DigitChar(a % 10) && s[|s| - 1] == DigitChar(b % 10);
        assert s[..|s| - 1] == Decimal(a / 10) && s[..|s| - 1] == Decimal(b / 10);
        DecimalInjective(a / 10, b / 10);
      }
    }
  }

  /** Distinct positions get distinct string keys, so keying the store by the
      pair is equivalent to keying it by `ch{c}_q{q}`. */
  lemma KeyStringInjective(k1: Key, k2: Key)
    ensures KeyString(k1) == KeyString(k2) ==> k1 == k2
  {
  }
}
