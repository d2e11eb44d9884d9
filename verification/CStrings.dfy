/** The kernel's C string functions. A buffer is a byte string that holds a NUL. */
module CStrings {
  import opened Bytes
  import Words

  /** Bytes of m from a position up to the first NUL. */
  function CString(m: seq<byte>, at: nat): seq<byte>
    requires at <= |m|
    decreases |m| - at
  {
    if at == |m| || m[at] == 0 then [] else [m[at]] + CString(m, at + 1)
  }

  /** A NUL-free text followed by a NUL reads back as the text. */
  lemma {:induction false} CStringIs(m: seq<byte>, at: nat, text: seq<byte>)
    requires at + |text| <= |m| && m[at..at + |text|] == text && 0 !in text
    ensures at + |text| < |m| ==> (CString(m, at) == text <==> m[at + |text|] == 0)
    decreases |text|
  {
    if text != [] {
      assert m[at] == text[0];
      assert m[at + 1..at + 1 + |text[1..]|] == text[1..];
      CStringIs(m, at + 1, text[1..]);
    }
  }

  method StrLen(str: seq<byte>) returns (length: nat)
    requires 0 in str
    ensures length < |str| && str[length] == 0 && 0 !in str[..length]
  {
    length := 0;
    while str[length] != 0
      invariant length < |str| && 0 !in str[..length]
      decreases |str| - length
    {
      length := length + 1;
    }
  }

  /** The difference of two bytes as the int8_t that the comparisons return. */
  function Difference(a: byte, b: byte): (d: int)
    ensures (d == 0 <==> a == b) && -128 <= d < 128 && (a as int - b as int - d) % 256 == 0
  {
    var low := ((a as int) - (b as int)) % 256;
    if low < 128 then low else low - 256
  }

  /** A NUL-free beginning is part of the string. */
  lemma {:induction false} CStringSplit(m: seq<byte>, at: nat, i: nat)
    requires at <= i <= |m| && 0 !in m[at..i]
    ensures CString(m, at) == m[at..i] + CString(m, i)
    decreases i - at
  {
    if at < i {
      assert m[at] == m[at..i][0] && m[at + 1..i] == m[at..i][1..];
      CStringSplit(m, at + 1, i);
    }
  }

  /** After i equal bytes that are not NUL, the next one decides. */
  lemma NextByteDecides(a: seq<byte>, b: seq<byte>, i: nat)
    requires i <= |a| && i <= |b| && a[..i] == b[..i] && 0 !in a[..i]
    requires |a| == i == |b| || (i < |a| && i < |b| && (a[i] != b[i] || a[i] == 0))
    ensures CString(a, 0) == CString(b, 0) <==> i == |a| || a[i] == b[i]
  {
    CStringSplit(a, 0, i);
    CStringSplit(b, 0, i);
    var x, y := CString(a, i), CString(b, i);
    assert CString(a, 0)[i..] == x && CString(b, 0)[i..] == y;
    if i < |a| && a[i] != b[i] {
      assert x == [] || y == [] || x[0] != y[0];
    }
  }

  /** The string in the first n bytes of a buffer, up to a NUL. */
  function Beginning(buf: seq<byte>, n: nat): seq<byte> { CString(buf[..Min(n, |buf|)], 0) }

  /** Zero exactly when the strings' first n bytes, up to a NUL, agree. A buffer without a
      NUL must hold byte n too, which may be looked at. */
  method StrNCmp(buf1: seq<byte>, buf2: seq<byte>, n: nat) returns (r: int)
    requires (n < |buf1| || 0 in buf1) && (n < |buf2| || 0 in buf2)
    ensures r == 0 <==> Beginning(buf1, n) == Beginning(buf2, n)
  {
    var i: nat := 0;
    while buf1[i] == buf2[i] && buf1[i] != 0 && buf2[i] != 0 && i < n
      invariant i <= n && i < |buf1| && i < |buf2| && buf1[..i] == buf2[..i] && 0 !in buf1[..i]
      decreases n - i
    {
      i := i + 1;
    }
    var a, b := buf1[..Min(n, |buf1|)], buf2[..Min(n, |buf2|)];
    assert a[..i] == buf1[..i] && b[..i] == buf2[..i];
    NextByteDecides(a, b, i);
    r := if i == n then 0 else Difference(buf1[i], buf2[i]);
  }

  /** A string against n bytes that may hold a NUL. */
  lemma WholeString(a: seq<byte>, b: seq<byte>)
    requires |a| == |b| && 0 !in a
    ensures CString(a, 0) == CString(b, 0) <==> a == b
  {
    CStringSplit(a, 0, |a|);
    CStringPrefix(b, 0);
  }

  lemma {:induction false} CStringPrefix(m: seq<byte>, at: nat)
    requires at <= |m|
    ensures CString(m, at) <= m[at..]
    decreases |m| - at
  {
    if at < |m| && m[at] != 0 { CStringPrefix(m, at + 1); }
  }

  /** strklcmp: a C string against a string of known length; zero exactly when equal. */
  method StrKLCmp(cstr: seq<byte>, klstr: seq<byte>, n: nat) returns (r: int)
    requires 0 in cstr && n < |klstr|
    ensures r == 0 <==> CString(cstr, 0) == klstr[..n]
  {
    var m := StrLen(cstr);
    CStringIs(cstr, 0, cstr[..m]);
    if m > n {
      r := StrNCmp(cstr, klstr, n);
      if r == 0 { r := 1; }
    } else if m < n {
      r := StrNCmp(cstr, klstr, m);
      if r == 0 { r := 1; }
    } else {
      r := StrNCmp(cstr, klstr, n);
      WholeString(cstr[..n], klstr[..n]);
    }
  }

  predicate IsOctal(c: byte) { 48 <= c <= 55 }

  predicate AllOctal(s: seq<byte>) { forall i :: 0 <= i < |s| ==> IsOctal(s[i]) }

  /** Value of a string of octal digits. */
  function Octal(digits: seq<byte>): nat
    requires AllOctal(digits)
  {
    if digits == [] then 0
    else
      var last := digits[|digits| - 1];
      assert IsOctal(last);
      8 * Octal(digits[..|digits| - 1]) + (last - 48) as nat
  }

  lemma OctalStep(v: nat, digit: nat)
    ensures Words.U64(Words.Shl64(Words.U64(v), 3) + digit) == Words.U64(8 * v + digit)
  {
    assert Words.Pow2(3) == 8;
  }

  /** parse_oct: the leading octal digits, their value taken modulo 2^64. */
  method ParseOct(str: seq<byte>) returns (count: nat, result: nat)
    requires exists i :: 0 <= i < |str| && !IsOctal(str[i])
    ensures count < |str| && !IsOctal(str[count])
    ensures AllOctal(str[..count])
    ensures result == Words.U64(Octal(str[..count]))
  {
    count, result := 0, 0;
    while IsOctal(str[count])
      invariant count < |str| && AllOctal(str[..count])
      invariant result == Words.U64(Octal(str[..count]))
      decreases |str| - count
    {
      var digit := (str[count] - 48) as nat;
      assert str[..count + 1][..count] == str[..count];
      OctalStep(Octal(str[..count]), digit);
      result := Words.U64(Words.Shl64(result, 3) + digit);
      count := count + 1;
    }
  }

  /** The end of a run of digits, like the first NUL, is determined by the string. */
  lemma OneEnd(s: seq<byte>, m: nat, n: nat)
    requires m < |s| && n < |s|
    ensures s[m] == 0 && s[n] == 0 && 0 !in s[..m] && 0 !in s[..n] ==> m == n
    ensures !IsOctal(s[m]) && !IsOctal(s[n]) && AllOctal(s[..m]) && AllOctal(s[..n]) ==> m == n
  {
    assert m < n ==> s[..n][m] == s[m];
    assert n < m ==> s[..m][n] == s[n];
  }
}
