/** The rotation file being edited and run: a titled list of rotations, each
    a titled list of key commands.  Both lists are edited in place and are
    searched by reference, so rotations and files are objects; the list
    operations the editor uses (Remove on an observable collection, the
    count-based title) are defined here as functions on sequences. */
module Rotations {
  import opened KeyCommands

  class Rotation {
    var title: string
    var keyCommands: seq<KeyCommand>

    /** new Rotation { Title = title }: no key commands yet. */
    constructor (title: string)
      ensures this.title == title && keyCommands == []
    {
      this.title := title;
      keyCommands := [];
    }
  }

  class RotationHelperFile {
    /** A null title is modelled as the empty string. */
    var title: string
    var rotations: seq<Rotation>

    /** new RotationHelperFile(): no rotations. */
    constructor ()
      ensures title == "" && rotations == []
    {
      title := "";
      rotations := [];
    }
  }

  /** Collection.IndexOf: the first position holding x, or -1. */
  function IndexOf<T(==)>(s: seq<T>, x: T): (i: int)
    ensures -1 <= i < |s|
    ensures i >= 0 ==> s[i] == x && x !in s[..i]
    ensures i == -1 <==> x !in s
  {
    if s == [] then -1
    else if s[|s| - 1] == x && IndexOf(s[..|s| - 1], x) == -1 then |s| - 1
    else
      var i := IndexOf(s[..|s| - 1], x);
      assert s[..|s| - 1][..(if i < 0 then 0 else i)] == s[..(if i < 0 then 0 else i)];
      i
  }

  /** Collection.Remove: the first occurrence of x is taken out and the rest
      keeps its order; without an occurrence nothing changes. */
  function Remove<T(==)>(s: seq<T>, x: T): (r: seq<T>)
  {
    var i := IndexOf(s, x);
    if i < 0 then s else s[..i] + s[i + 1..]
  }

  /** Remove takes out exactly one occurrence of x when there is one and
      nothing else; the elements before it are kept in place. */
  lemma RemoveOne<T>(s: seq<T>, x: T)
    ensures x !in s ==> Remove(s, x) == s
    ensures x in s ==> |Remove(s, x)| == |s| - 1
    ensures multiset(Remove(s, x)) == multiset(s) - multiset{x}
    ensures x in s ==> exists i :: 0 <= i < |s| && s[i] == x && x !in s[..i] && Remove(s, x) == s[..i] + s[i + 1..]
  {
    var i := IndexOf(s, x);
    if i >= 0 {
      assert s == s[..i] + [x] + s[i + 1..];
      calc {
        multiset(s);
        multiset(s[..i]) + multiset{x} + multiset(s[i + 1..]);
        multiset(Remove(s, x)) + multiset{x};
      }
    }
  }

  /** The decimal digit d. */
  function DigitChar(d: nat): char
    requires d < 10
  {
    (48 + d) as char
  }

  predicate IsDigits(s: string)
  {
    forall i :: 0 <= i < |s| ==> '0' <= s[i] <= '9'
  }

  /** The invariant-culture decimal form of n, as string interpolation
      writes an int: no sign, no leading zero. */
  function NatToString(n: nat): (s: string)
    ensures |s| >= 1 && IsDigits(s)
    ensures s[0] == '0' ==> n == 0
  {
    if n < 10 then [DigitChar(n)]
    else NatToString(n / 10) + [DigitChar(n % 10)]
  }

  /** Reading a string of decimal digits back as a number. */
  function ParseDigits(s: string): nat
    requires IsDigits(s)
  {
    if s == [] then 0
    else ParseDigits(s[..|s| - 1]) * 10 + (s[|s| - 1] as int - 48)
  }

  /** NatToString and ParseDigits are inverse, so different numbers have
      different decimal forms. */
  lemma {:induction false} ParseNatToString(n: nat)
    ensures ParseDigits(NatToString(n)) == n
  {
    if n >= 10 {
      var s := NatToString(n);
      assert s[..|s| - 1] == NatToString(n / 10);
      ParseNatToString(n / 10);
    }
  }

  /** The title AddRotationAction gives a new rotation when the file holds
      `count` rotations: "Rotation {count + 1}". */
  function RotationTitle(count: nat): (t: string)
    ensures |t| > 9 && t[..9] == "Rotation "
  {
    "Rotation " + NatToString(count + 1)
  }

  /** Two titles agree exactly when they were made at the same count; the
      title depends on the count alone, not on which rotations exist. */
  lemma RotationTitleInjective(m: nat, n: nat)
    ensures RotationTitle(m) == RotationTitle(n) <==> m == n
  {
    if RotationTitle(m) == RotationTitle(n) {
      assert NatToString(m + 1) == RotationTitle(m)[9..] == RotationTitle(n)[9..] == NatToString(n + 1);
      ParseNatToString(m + 1);
      ParseNatToString(n + 1);
    }
  }
}
