/** Identifiers and small helpers shared by every part of the model.
    The bot compares guilds, roles and users as platform objects; two such
    objects are equal exactly when their ids are, so the model keeps only ids. */
module Common {

  type GuildId = nat
  type RoleId = nat
  type UserId = nat
  type ChannelId = nat

  datatype Option<+T> = None | Some(value: T)

  /** No element occurs twice (the keys of a dict, the elements of a set). */
  predicate Distinct<T(==)>(s: seq<T>)
  {
    forall i, j :: 0 <= i < j < |s| ==> s[i] != s[j]
  }

  /** Concatenation regroups freely. */
  lemma Associative<T>(a: seq<T>, b: seq<T>, c: seq<T>)
    ensures a + (b + c) == (a + b) + c
  {
  }

  /** Every id of `s` that is not in `drop`, in order. */
  function Without(s: seq<nat>, drop: seq<nat>): (r: seq<nat>)
    ensures forall x :: x in r <==> x in s && x !in drop
    ensures |r| <= |s|
  {
    if s == [] then []
    else Without(s[..|s| - 1], drop) + (if s[|s| - 1] in drop then [] else [s[|s| - 1]])
  }

  /** Removing the elements of `a` and then those of `b` removes those of `a + b`. */
  lemma {:induction false} WithoutTwice(s: seq<nat>, a: seq<nat>, b: seq<nat>)
    ensures Without(Without(s, a), b) == Without(s, a + b)
  {
    if s != [] {
      var init, last := s[..|s| - 1], s[|s| - 1];
      WithoutTwice(init, a, b);
      var w := Without(init, a);
      var tail := if last in a then [] else [last];
      WithoutAppend(w, tail, b);
    }
  }

  /** Filtering distributes over concatenation. */
  lemma {:induction false} WithoutAppend(s: seq<nat>, t: seq<nat>, drop: seq<nat>)
    ensures Without(s + t, drop) == Without(s, drop) + Without(t, drop)
    decreases |t|
  {
    if t == [] {
      assert s + t == s;
    } else {
      assert (s + t)[..|s + t| - 1] == s + t[..|t| - 1];
      WithoutAppend(s, t[..|t| - 1], drop);
    }
  }

  /** Removing nothing keeps everything. */
  lemma {:induction false} WithoutNone(s: seq<nat>)
    ensures Without(s, []) == s
  {
    if s != [] {
      WithoutNone(s[..|s| - 1]);
      assert s == s[..|s| - 1] + [s[|s| - 1]];
    }
  }

  /** Removing the keys of a distinct table keeps it distinct. */
  lemma {:induction false} WithoutDistinct(s: seq<nat>, drop: seq<nat>)
    requires Distinct(s)
    ensures Distinct(Without(s, drop))
  {
    if s != [] {
      var init := s[..|s| - 1];
      assert Distinct(init);
      WithoutDistinct(init, drop);
    }
  }
}

/** Decimal text of natural numbers: Python's `str` on an `int` id, and the
    `int` that reads such a text back. */
module Decimal {
  import opened Common

  predicate IsDigit(c: char)
  {
    '0' <= c <= '9'
  }

  function DigitChar(d: nat): (c: char)
    requires d < 10
    ensures IsDigit(c) && c as int - '0' as int == d
  {
    (('0' as int) + d) as char
  }

  /** The decimal text of `n`, with no leading zero (except for 0 itself). */
  function NatToString(n: nat): (s: string)
    ensures |s| > 0
    ensures forall i :: 0 <= i < |s| ==> IsDigit(s[i])
    ensures |s| > 1 ==> s[0] != '0'
    decreases n
  {
    if n < 10 then [DigitChar(n)] else NatToString(n / 10) + [DigitChar(n % 10)]
  }

  /** The value of a string of digits (read from the left). */
  function DigitsValue(s: string): nat
    requires forall i :: 0 <= i < |s| ==> IsDigit(s[i])
  {
    if s == [] then 0
    else 10 * DigitsValue(s[..|s| - 1]) + DigitValue(s[|s| - 1])
  }

  function DigitValue(c: char): (d: nat)
    requires IsDigit(c)
    ensures d < 10
  {
    c as int - '0' as int
  }

  /** A text as `str` writes a natural number: digits, and no leading zero. */
  predicate Canonical(s: string)
  {
    && |s| > 0
    && (forall i :: 0 <= i < |s| ==> IsDigit(s[i]))
    && (|s| > 1 ==> s[0] != '0')
  }

  /** Reading a decimal id back; anything but a canonical decimal is refused. */
  function ParseNat(s: string): (r: Option<nat>)
    ensures r.Some? <==> Canonical(s)
  {
    if Canonical(s) then Some(DigitsValue(s)) else None
  }

  lemma {:induction false} DigitsValueOfNatToString(n: nat)
    ensures DigitsValue(NatToString(n)) == n
    decreases n
  {
    if n >= 10 {
      DigitsValueOfNatToString(n / 10);
      var s := NatToString(n);
      assert s[..|s| - 1] == NatToString(n / 10);
    }
  }

  /** Reading the text that `str` wrote gives back the id. */
  lemma ParseNatToString(n: nat)
    ensures ParseNat(NatToString(n)) == Some(n)
  {
    DigitsValueOfNatToString(n);
  }

  /** A canonical text is the text of the number it denotes. */
  lemma {:induction false} NatToStringOfDigitsValue(s: string)
    requires Canonical(s)
    ensures NatToString(DigitsValue(s)) == s
    decreases |s|
  {
    if |s| > 1 {
      var init := s[..|s| - 1];
      assert init[0] == s[0];
      assert Canonical(init);
      NatToStringOfDigitsValue(init);
      DigitsValuePositive(init);
    }
  }

  lemma {:induction false} DigitsValuePositive(s: string)
    requires Canonical(s) && |s| > 0 && s[0] != '0'
    ensures DigitsValue(s) >= 1
    decreases |s|
  {
    if |s| > 1 {
      var init := s[..|s| - 1];
      assert init[0] == s[0];
      DigitsValuePositive(init);
    }
  }

  /** Distinct ids have distinct texts. */
  lemma NatToStringInjective(m: nat, n: nat)
    ensures NatToString(m) == NatToString(n) ==> m == n
  {
    DigitsValueOfNatToString(m);
    DigitsValueOfNatToString(n);
  }

  /** A text that parses is the text of the value it parses to. */
  lemma ParseNatCanonical(s: string)
    requires ParseNat(s).Some?
    ensures NatToString(ParseNat(s).value) == s
  {
    NatToStringOfDigitsValue(s);
  }

  lemma ReadsBackEveryId()
    ensures forall n: nat {:trigger NatToString(n)} :: ParseNat(NatToString(n)) == Some(n)
  {
    forall n: nat ensures ParseNat(NatToString(n)) == Some(n) {
      ParseNatToString(n);
    }
  }

  lemma WritesBackEveryText()
    ensures forall s {:trigger ParseNat(s)} :: ParseNat(s).Some? ==> NatToString(ParseNat(s).value) == s
  {
    forall s | ParseNat(s).Some? ensures NatToString(ParseNat(s).value) == s {
      ParseNatCanonical(s);
    }
  }
}
