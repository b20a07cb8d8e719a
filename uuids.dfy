/**
 * Event identifiers: a UUID is kept as its 32 lower-case hexadecimal digits, which
 * identifies it exactly as Python's `UUID` equality (on the 128-bit value) does.
 */
module Uuids {
  import opened Wrappers

  predicate IsHexDigit(c: char) { '0' <= c <= '9' || 'a' <= c <= 'f' || 'A' <= c <= 'F' }

  predicate IsLowerHexDigit(c: char) { '0' <= c <= '9' || 'a' <= c <= 'f' }

  predicate IsCanonical(s: string) {
    |s| == 32 && forall i :: 0 <= i < |s| ==> IsLowerHexDigit(s[i])
  }

  type Uuid = s: string | IsCanonical(s) witness "00000000000000000000000000000000"

  function LowerHex(c: char): (d: char)
    requires IsHexDigit(c)
    ensures IsLowerHexDigit(d)
    ensures IsLowerHexDigit(c) ==> d == c
  {
    if 'A' <= c <= 'F' then (c as int - 'A' as int + 'a' as int) as char else c
  }

  /** Every '-' removed, as `UUID(s)` does before counting digits. */
  function WithoutHyphens(s: string): (r: string)
    ensures |r| <= |s|
    ensures forall i :: 0 <= i < |r| ==> r[i] != '-'
  {
    if s == [] then [] else (if s[0] == '-' then [] else [s[0]]) + WithoutHyphens(s[1..])
  }

  function LowerAll(s: string): (r: string)
    requires forall i :: 0 <= i < |s| ==> IsHexDigit(s[i])
    ensures |r| == |s|
    ensures forall i :: 0 <= i < |s| ==> r[i] == LowerHex(s[i])
  {
    if s == [] then [] else [LowerHex(s[0])] + LowerAll(s[1..])
  }

  /** `UUID(s)`: the hyphen-free text must be exactly 32 hexadecimal digits, in either case. */
  function ParseUuid(s: string): (r: Option<Uuid>)
    ensures r.Some? ==> |WithoutHyphens(s)| == 32 && |s| >= 32
  {
    var d := WithoutHyphens(s);
    if |d| == 32 && forall i :: 0 <= i < 32 ==> IsHexDigit(d[i]) then Some(LowerAll(d)) else None
  }

  /** `str(u)`: the 8-4-4-4-12 hyphenated lower-case form. */
  function UuidText(u: Uuid): (s: string)
    ensures |s| == 36
  {
    u[..8] + "-" + u[8..12] + "-" + u[12..16] + "-" + u[16..20] + "-" + u[20..]
  }

  lemma {:induction false} WithoutHyphensAppend(a: string, b: string)
    ensures WithoutHyphens(a + b) == WithoutHyphens(a) + WithoutHyphens(b)
  {
    if a != [] {
      assert (a + b)[0] == a[0] && (a + b)[1..] == a[1..] + b;
      WithoutHyphensAppend(a[1..], b);
    } else {
      assert a + b == b;
    }
  }

  lemma {:induction false} WithoutHyphensNone(s: string)
    requires forall i :: 0 <= i < |s| ==> s[i] != '-'
    ensures WithoutHyphens(s) == s
  {
    if s != [] {
      WithoutHyphensNone(s[1..]);
    }
  }

  lemma DropHyphenJoin(t: string, p: string)
    requires forall i :: 0 <= i < |p| ==> p[i] != '-'
    ensures WithoutHyphens(t + "-" + p) == WithoutHyphens(t) + p
  {
    var hyphen: string := "-";
    assert WithoutHyphens(hyphen) == [] by {
      assert hyphen[0] == '-' && hyphen[1..] == [];
    }
    WithoutHyphensAppend(t, hyphen);
    assert WithoutHyphens(t + hyphen) == WithoutHyphens(t);
    WithoutHyphensAppend(t + hyphen, p);
    WithoutHyphensNone(p);
  }

  lemma LowerAllCanonical(u: Uuid)
    ensures LowerAll(u) == u
  {
  }

  /** Parsing the text `str(u)` gives back u: ids written to the file are read back equal. */
  lemma UuidTextRoundTrip(u: Uuid)
    ensures ParseUuid(UuidText(u)) == Some(u)
  {
    var t0 := u[..8];
    WithoutHyphensNone(t0);
    var t1 := t0 + "-" + u[8..12];
    DropHyphenJoin(t0, u[8..12]);
    assert WithoutHyphens(t1) == u[..12];
    var t2 := t1 + "-" + u[12..16];
    DropHyphenJoin(t1, u[12..16]);
    assert WithoutHyphens(t2) == u[..16];
    var t3 := t2 + "-" + u[16..20];
    DropHyphenJoin(t2, u[16..20]);
    assert WithoutHyphens(t3) == u[..20];
    DropHyphenJoin(t3, u[20..]);
    assert UuidText(u) == t3 + "-" + u[20..];
    assert WithoutHyphens(UuidText(u)) == u;
    LowerAllCanonical(u);
  }
}
