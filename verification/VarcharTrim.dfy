/** Stripping the blanks around a text in place, in a field that starts with its two-byte length. */
module VarcharTrim {

  type Byte = b: int | 0 <= b < 256

  const BLANK: Byte := 32

  function Number(low: Byte, high: Byte): (n: nat)
    ensures n == 0 ==> high == 0
  {
    low as int + 256 * (high as int)
  }

  /** The length at the start of the field, low byte first. */
  function Len(m: seq<Byte>): (n: nat)
    requires |m| >= 2
  {
    Number(m[0], m[1])
  }

  /** A field with its text: at least one byte of it, even when the length is zero. */
  predicate IsField(m: seq<Byte>) {
    |m| >= 3 && Len(m) < 32768 && Len(m) <= |m| - 2
  }

  /** The text of a field. */
  function Val(m: seq<Byte>): (r: seq<Byte>)
    requires IsField(m)
  {
    m[2..2 + Len(m)]
  }

  ghost predicate AllBlank(s: seq<Byte>) {
    forall k :: 0 <= k < |s| ==> s[k] == BLANK
  }

  /** The number of blanks at the start. */
  function Leading(s: seq<Byte>): (n: nat)
    ensures n <= |s| && AllBlank(s[..n]) && (n < |s| ==> s[n] != BLANK)
  {
    if s == [] || s[0] != BLANK then 0 else 1 + Leading(s[1..])
  }

  /** The text without the blanks at its end. */
  function Cut(s: seq<Byte>): (r: seq<Byte>)
    ensures r <= s && AllBlank(s[|r|..]) && (r != [] ==> r[|r| - 1] != BLANK)
  {
    if s == [] || s[|s| - 1] != BLANK then s else Cut(s[..|s| - 1])
  }

  /** The text without the blanks around it. */
  function Stripped(s: seq<Byte>): (r: seq<Byte>) {
    Cut(s)[Leading(Cut(s))..]
  }

  lemma {:induction false} CutIs(t: seq<Byte>, b: seq<Byte>)
    requires AllBlank(b) && (t != [] ==> t[|t| - 1] != BLANK)
    ensures Cut(t + b) == t
  {
    if b == [] {
      assert t + b == t;
    } else {
      CutIs(t, b[..|b| - 1]);
      assert (t + b)[..|t + b| - 1] == t + b[..|b| - 1];
    }
  }

  lemma {:induction false} LeadingIs(a: seq<Byte>, t: seq<Byte>)
    requires AllBlank(a) && (t != [] ==> t[0] != BLANK)
    ensures Leading(a + t) == |a|
  {
    if a == [] {
      assert a + t == t;
    } else {
      LeadingIs(a[1..], t);
      assert (a + t)[1..] == a[1..] + t;
    }
  }

  /** Whatever is found between blanks and has none at its ends is the stripped text. */
  lemma StrippedIs(a: seq<Byte>, t: seq<Byte>, b: seq<Byte>)
    requires AllBlank(a) && AllBlank(b) && (t != [] ==> t[0] != BLANK && t[|t| - 1] != BLANK)
    ensures Stripped(a + t + b) == t
  {
    if t == [] {
      CutIs([], a + b);
      assert [] + (a + b) == a + t + b;
    } else {
      CutIs(a + t, b);
      LeadingIs(a, t);
    }
  }

  method SetLen(field: array<Byte>, n: nat)
    requires field.Length >= 2 && n < 32768
    modifies field
    ensures Number(field[0], field[1]) == n
    ensures forall i :: 2 <= i < field.Length ==> field[i] == old(field[i])
  {
    field[0], field[1] := n % 256, n / 256;
  }

  /** Walks back over the blanks at the end, clearing them. When the whole text was blank the walk reaches
      the length, which has become zero and is no blank. */
  method DropTrailing(field: array<Byte>)
    requires IsField(field[..])
    modifies field
    ensures IsField(field[..]) && Val(field[..]) == Cut(old(Val(field[..])))
    ensures forall i :: 2 + Len(field[..]) <= i < 2 + Len(old(field[..])) ==> field[i] == 0
    ensures forall i :: 2 + Len(old(field[..])) <= i < field.Length ==> field[i] == old(field[i])
  {
    hide Cut, Number;
    ghost var was := field[..];
    WalkBack(field);
    CutAt(was, field[..], Len(field[..]), Len(was));
  }

  method WalkBack(field: array<Byte>)
    requires field.Length >= 2 && Number(field[0], field[1]) <= field.Length - 2 && Number(field[0], field[1]) < 32768
    modifies field
    ensures var len, n := Number(field[0], field[1]), Number(old(field[0]), old(field[1]));
            && len <= n && (len > 0 ==> field[1 + len] != BLANK)
            && (forall i :: 2 <= i < 2 + len || 2 + n <= i < field.Length ==> field[i] == old(field[i]))
            && (forall i :: 2 + len <= i < 2 + n ==> field[i] == 0 && old(field[i]) == BLANK)
  {
    hide Number;
    var n := Number(field[0], field[1]);
    var len := n;
    var ptr := 2 + len - 1;
    while field[ptr] == BLANK
      invariant ptr == len + 1 && Number(field[0], field[1]) == len <= n
      invariant forall i :: 2 <= i < 2 + len || 2 + n <= i < field.Length ==> field[i] == old(field[i])
      invariant forall i :: 2 + len <= i < 2 + n ==> field[i] == 0 && old(field[i]) == BLANK
      decreases len
    {
      field[ptr] := 0;
      ptr := ptr - 1;
      len := len - 1;
      SetLen(field, len);
    }
  }

  lemma CutAt(was: seq<Byte>, now: seq<Byte>, len: nat, n: nat)
    requires 2 + len <= 2 + n <= |was| == |now|
    requires forall i :: 2 <= i < 2 + len ==> now[i] == was[i]
    requires forall i :: 2 + len <= i < 2 + n ==> was[i] == BLANK
    requires len > 0 ==> now[1 + len] != BLANK
    ensures now[2..2 + len] == Cut(was[2..2 + n])
  {
    CutIs(was[2..2 + len], was[2 + len..2 + n]);
    assert was[2..2 + n] == was[2..2 + len] + was[2 + len..2 + n];
    assert now[2..2 + len] == was[2..2 + len];
  }

  /** Counts the blanks from the front of the text, and says whether they end inside the field. A text that
      ends with no blank is not left; an empty one is, when a blank follows it. */
  method CountLeading(field: array<Byte>) returns (numBlanks: nat, ended: bool)
    requires IsField(field[..])
    requires var v := Val(field[..]); v != [] ==> v[|v| - 1] != BLANK
    ensures ended ==> numBlanks <= field.Length - 3 && field[2 + numBlanks] != BLANK
    ensures numBlanks <= field.Length - 2 && forall i :: 2 <= i < 2 + numBlanks ==> field[i] == BLANK
    ensures numBlanks <= Len(field[..]) <==> Len(field[..]) > 0 || field[2] != BLANK
    ensures numBlanks <= Len(field[..]) ==> ended && numBlanks == Leading(Val(field[..]))
    ensures !ended ==> numBlanks == field.Length - 2
  {
    hide Number;
    numBlanks := 0;
    ghost var v := Val(field[..]);
    while 2 + numBlanks < field.Length && field[2 + numBlanks] == BLANK
      invariant numBlanks <= field.Length - 2
      invariant forall i :: 2 <= i < 2 + numBlanks ==> field[i] == BLANK
    {
      numBlanks := numBlanks + 1;
    }
    ended := 2 + numBlanks < field.Length;
    LeadingEnds(field[..], numBlanks);
  }

  lemma LeadingEnds(m: seq<Byte>, n: nat)
    requires IsField(m) && n <= |m| - 2 && (forall i :: 2 <= i < 2 + n ==> m[i] == BLANK)
    requires 2 + n < |m| ==> m[2 + n] != BLANK
    requires var v := Val(m); v != [] ==> v[|v| - 1] != BLANK
    ensures n <= Len(m) <==> Len(m) > 0 || m[2] != BLANK
    ensures n <= Len(m) ==> 2 + n < |m| && n == Leading(Val(m))
  {
    hide Number, Leading;
    var v := Val(m);
    if Len(m) > 0 {
      assert m[1 + Len(m)] == v[|v| - 1];
      assert n < Len(m);
      LeadingIs(v[..n], v[n..]);
      assert v[..n] + v[n..] == v;
    } else {
      LeadingIs([], []);
      assert v == [] + [];
    }
  }

  /** Moves the text to the front over its leading blanks, and clears what it leaves behind. */
  method DropLeading(field: array<Byte>, numBlanks: nat, bound: nat)
    requires IsField(field[..]) && numBlanks <= Len(field[..]) && bound == Len(field[..]) - numBlanks
    modifies field
    ensures IsField(field[..]) && Val(field[..]) == old(Val(field[..]))[numBlanks..]
    ensures forall i :: 2 + Len(field[..]) <= i < 2 + Len(old(field[..])) ==> field[i] == 0
    ensures forall i :: 2 + Len(old(field[..])) <= i < field.Length ==> field[i] == old(field[i])
  {
    hide Number;
    ghost var was := field[..];
    var len := Number(field[0], field[1]);
    MoveDown(field, bound, numBlanks);
    ClearEnd(field, len, numBlanks);
    ghost var now := field[..];
    ghost var rest := Len(now);
    MovedIs(was, now, len, numBlanks, rest);
  }

  method MoveDown(field: array<Byte>, bound: nat, numBlanks: nat)
    requires bound + numBlanks <= field.Length - 2
    modifies field
    ensures field[0] == old(field[0]) && field[1] == old(field[1])
    ensures forall k :: 2 <= k < 2 + bound ==> field[k] == old(field[k + numBlanks])
    ensures forall k :: 2 + bound <= k < field.Length ==> field[k] == old(field[k])
  {
    for i := 0 to bound
      invariant field[0] == old(field[0]) && field[1] == old(field[1])
      invariant forall k :: 2 <= k < 2 + i ==> field[k] == old(field[k + numBlanks])
      invariant forall k :: 2 + i <= k < field.Length ==> field[k] == old(field[k])
    {
      field[2 + i] := field[2 + i + numBlanks];
    }
  }

  method ClearEnd(field: array<Byte>, len: nat, numBlanks: nat)
    requires numBlanks <= len <= field.Length - 2 && Number(field[0], field[1]) == len < 32768
    modifies field
    ensures Number(field[0], field[1]) == len - numBlanks
    ensures forall k :: 2 + len - numBlanks <= k < 2 + len ==> field[k] == 0
    ensures forall k :: 2 <= k < 2 + len - numBlanks || 2 + len <= k < field.Length ==> field[k] == old(field[k])
  {
    hide Number;
    var left, n := numBlanks, len;
    while left > 0
      invariant 0 <= left && n - left == len - numBlanks && n <= len && Number(field[0], field[1]) == n
      invariant forall k :: 2 + n <= k < 2 + len ==> field[k] == 0
      invariant forall k :: 2 <= k < 2 + n || 2 + len <= k < field.Length ==> field[k] == old(field[k])
    {
      left := left - 1;
      n := n - 1;
      SetLen(field, n);
      field[2 + n] := 0;
    }
  }

  lemma MovedIs(was: seq<Byte>, now: seq<Byte>, n: nat, numBlanks: nat, rest: nat)
    requires n == rest + numBlanks && 2 + n <= |was| && 2 + rest <= |now|
    requires forall k :: 2 <= k < 2 + rest ==> now[k] == was[k + numBlanks]
    ensures now[2..2 + rest] == was[2..2 + n][numBlanks..]
  {
    var a, b := now[2..2 + rest], was[2..2 + n][numBlanks..];
    forall k | 0 <= k < rest
      ensures a[k] == b[k]
    {
      assert a[k] == now[2 + k] && b[k] == was[2 + k + numBlanks];
    }
  }

  /** The bound of the moving loop, in the unsigned 64-bit arithmetic it is computed in. */
  function MoveBound(len: nat, numBlanks: nat): (r: nat) {
    (len - numBlanks) % 0x1_0000_0000_0000_0000
  }

  /** The bound is the length of the text without its leading blanks, or far beyond any field. */
  lemma MoveBoundIs(len: nat, numBlanks: nat)
    requires len < 32768 && numBlanks < 0x1_0000_0000
    ensures numBlanks <= len ==> MoveBound(len, numBlanks) == len - numBlanks
    ensures numBlanks > len ==> MoveBound(len, numBlanks) > 0x1_0000_0000
  {
    if numBlanks > len {
      var short: int := len - numBlanks;
      assert short % 0x1_0000_0000_0000_0000 == 0x1_0000_0000_0000_0000 + short;
    }
  }

  /** The whole strip. It is defined, that is, no loop leaves the field, exactly when the text is not empty or
      is not followed by a blank; a strip that is not defined ends here before its moving loop. */
  method Strip(field: array<Byte>) returns (defined: bool)
    requires IsField(field[..]) && field.Length < 0x1_0000_0000
    modifies field
    ensures defined <==> Len(old(field[..])) > 0 || old(field[2]) != BLANK
    ensures defined ==> IsField(field[..]) && Val(field[..]) == Stripped(old(Val(field[..])))
    ensures defined ==> forall i :: 2 + Len(field[..]) <= i < 2 + Len(old(field[..])) ==> field[i] == 0
    ensures forall i :: 2 + Len(old(field[..])) <= i < field.Length ==> field[i] == old(field[i])
  {
    hide Cut, Leading, Number;
    DropTrailing(field);
    var numBlanks, ended := CountLeading(field);
    var len := Len(field[..]);
    MoveBoundIs(len, numBlanks);
    if numBlanks > 0 {
      var bound := MoveBound(len, numBlanks);
      if bound > field.Length {
        return false;
      }
      DropLeading(field, numBlanks, bound);
    }
    defined := true;
  }

  /** The smallest field whose strip is not defined: no text, and a blank behind it. */
  lemma EmptyBeforeBlank()
    ensures IsField([0, 0, 32]) && Val([0, 0, 32]) == [] && Leading([32]) == 1
    ensures MoveBound(0, Leading([32])) > 0x1_0000_0000
  {
    assert Leading([]) == 0 && [BLANK][1..] == [];
    MoveBoundIs(0, 1);
  }
}
