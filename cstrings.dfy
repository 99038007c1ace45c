// C strings as the kernel shell sees them: a character buffer read up to its
// first NUL, plus the small in-place helpers of kernel/kernel.c that work on them.

module CStrings {

  const NUL: char := '\0'

  /** The characters of a C string before its terminator: never a NUL. */
  type Text = s: seq<char> | NUL !in s

  /** A pointer that may be null. */
  datatype Option<T> = None | Some(value: T)

  // ---------------------------------------------------------------------------
  // strlen and the string a buffer holds

  /** strlen: the index of the first NUL of a buffer. */
  function Strlen(s: seq<char>): (n: nat)
    requires NUL in s
    ensures n < |s| && s[n] == NUL && NUL !in s[..n]
  {
    if s[0] == NUL then 0
    else
      assert s == [s[0]] + s[1..];
      var m := Strlen(s[1..]);
      assert s[..m + 1] == [s[0]] + s[1..][..m];
      m + 1
  }

  /** The C string a buffer holds: its characters before the first NUL. */
  function CStr(s: seq<char>): (t: Text)
    requires NUL in s
  {
    s[..Strlen(s)]
  }

  /** `strcmp(buf, t) == 0` for a NUL-free `t`: `buf` holds exactly `t`, then a NUL. */
  predicate Holds(buf: seq<char>, t: Text)
  {
    |t| < |buf| && buf[..|t|] == t && buf[|t|] == NUL
  }

  /** Any NUL with no NUL before it is the first one. */
  lemma StrlenUnique(s: seq<char>, k: nat)
    requires k < |s| && s[k] == NUL && NUL !in s[..k]
    ensures Strlen(s) == k
  {
  }

  lemma HoldsIff(buf: seq<char>, t: Text)
    ensures Holds(buf, t) <==> NUL in buf && CStr(buf) == t
  {
    if Holds(buf, t) {
      StrlenUnique(buf, |t|);
    }
  }

  /** The C string at index `p` of a buffer, read off the position `e` of its terminator. */
  lemma CStrAt(s: seq<char>, p: nat, e: nat)
    requires p <= e < |s| && s[e] == NUL
    requires forall k :: p <= k < e ==> s[k] != NUL
    ensures NUL in s[p..] && CStr(s[p..]) == s[p..e] && Strlen(s[p..]) == e - p
  {
    assert s[p..][e - p] == NUL;
    assert s[p..][..e - p] == s[p..e];
    StrlenUnique(s[p..], e - p);
  }

  /** The position of the terminator of the C string at index `p`. */
  function Terminator(s: seq<char>, p: nat): (e: nat)
    requires p < |s| && NUL in s[p..]
    ensures p <= e < |s| && s[e] == NUL
    ensures forall k :: p <= k < e ==> s[k] != NUL
  {
    var n := Strlen(s[p..]);
    assert forall k :: p <= k < p + n ==> s[k] == s[p..][..n][k - p];
    p + n
  }

  /** The C string at index `p` survives any write after its terminator `e`. */
  lemma CStrKept(s: seq<char>, s': seq<char>, p: nat, e: nat)
    requires p <= e < |s| == |s'| && s[e] == NUL
    requires forall k :: p <= k < e ==> s[k] != NUL
    requires forall k :: p <= k <= e ==> s'[k] == s[k]
    ensures NUL in s[p..] && NUL in s'[p..] && CStr(s'[p..]) == CStr(s[p..])
  {
    CStrAt(s, p, e);
    CStrAt(s', p, e);
    assert s'[p..e] == s[p..e];
  }

  // ---------------------------------------------------------------------------
  // to_upper_inplace

  function UpperChar(c: char): (u: char)
  {
    if 'a' <= c <= 'z' then (c as int - 'a' as int + 'A' as int) as char else c
  }

  /** The string with every lower-case ASCII letter replaced by its capital. */
  function Upcase(t: Text): (u: Text)
    ensures |u| == |t|
    ensures forall i :: 0 <= i < |t| ==> u[i] == UpperChar(t[i])
    ensures forall i :: 0 <= i < |t| ==> !('a' <= u[i] <= 'z')
    ensures forall i :: 0 <= i < |t| && !('a' <= t[i] <= 'z') ==> u[i] == t[i]
    ensures forall i :: 0 <= i < |t| && 'a' <= t[i] <= 'z' ==> u[i] as int == t[i] as int - 32
  {
    seq(|t|, i requires 0 <= i < |t| => UpperChar(t[i]))
  }

  lemma UpcaseLeavesNoLowerCase(t: Text)
    ensures forall i :: 0 <= i < |t| ==> !('a' <= Upcase(t)[i] <= 'z')
    ensures Upcase(Upcase(t)) == Upcase(t)
  {
  }

  /** to_upper_inplace: capitalises the string `a` holds, in place, and touches
      nothing from its terminator on. */
  method ToUpperInPlace(a: array<char>)
    requires NUL in a[..]
    modifies a
    ensures NUL in a[..] && CStr(a[..]) == Upcase(CStr(old(a[..])))
    ensures forall i :: Strlen(old(a[..])) <= i < a.Length ==> a[i] == old(a[i])
  {
    ghost var s := a[..];
    ghost var n := Strlen(s);
    var i := 0;
    while a[i] != NUL
      invariant 0 <= i <= n
      invariant forall k :: 0 <= k < i ==> a[k] == UpperChar(s[k])
      invariant forall k :: i <= k < a.Length ==> a[k] == s[k]
      decreases n - i
    {
      if i == n {
        assert false;
      }
      assert s[..n][i] == s[i];
      if 'a' <= a[i] <= 'z' {
        a[i] := (a[i] as int - 'a' as int + 'A' as int) as char;
      }
      i := i + 1;
    }
    assert a[..n] == Upcase(CStr(s));
    assert NUL !in a[..n];
    StrlenUnique(a[..], n);
  }

  // ---------------------------------------------------------------------------
  // copy_bounded

  function Min(x: int, y: int): (m: int) { if x <= y then x else y }

  /** The buffer `d` after `copy_bounded(d, src, maxlen)` with `maxlen > 0`:
      at most `maxlen - 1` characters of `src`, a NUL, and the old tail of `d`. */
  function Copied(d: seq<char>, src: Text, maxlen: int): (r: seq<char>)
    requires 0 < maxlen <= |d|
    ensures |r| == |d|
    ensures var k := Min(maxlen - 1, |src|);
      r[k] == NUL &&
      (forall i :: 0 <= i < k ==> r[i] == src[i]) &&
      (forall i :: k < i < |d| ==> r[i] == d[i])
  {
    var k := Min(maxlen - 1, |src|);
    src[..k] + [NUL] + d[k + 1..]
  }

  /** After the copy the buffer holds `src` cut to `maxlen - 1` characters;
      in particular it holds `src` itself whenever `src` is shorter than `maxlen`. */
  lemma CopiedHolds(d: seq<char>, src: Text, maxlen: int)
    requires 0 < maxlen <= |d|
    ensures Holds(Copied(d, src, maxlen), src[..Min(maxlen - 1, |src|)])
    ensures |src| < maxlen ==> Holds(Copied(d, src, maxlen), src)
    ensures NUL in Copied(d, src, maxlen)
  {
    var k := Min(maxlen - 1, |src|);
    var r := Copied(d, src, maxlen);
    assert r[..k] == src[..k];
    assert r[k] == NUL;
    if |src| < maxlen {
      assert src[..k] == src;
    }
  }

  /** copy_bounded: copies `src` into `dst` up to `maxlen - 1` characters and
      always terminates it; a non-positive `maxlen` writes nothing. */
  method CopyBounded(dst: array<char>, src: Text, maxlen: int)
    requires maxlen <= dst.Length
    modifies dst
    ensures maxlen <= 0 ==> dst[..] == old(dst[..])
    ensures maxlen > 0 ==> dst[..] == Copied(old(dst[..]), src, maxlen)
  {
    if maxlen <= 0 {
      return;
    }
    var i := 0;
    while i < maxlen - 1 && i < |src|
      invariant 0 <= i <= Min(maxlen - 1, |src|)
      invariant forall k :: 0 <= k < i ==> dst[k] == src[k]
      invariant forall k :: i <= k < dst.Length ==> dst[k] == old(dst[k])
    {
      dst[i] := src[i];
      i := i + 1;
    }
    dst[i] := NUL;
  }

  // ---------------------------------------------------------------------------
  // Spaces and words, as the tokenizer and the number parser see them

  /** The string without its leading spaces. */
  function SkipSpaces(t: Text): (r: Text)
    ensures |r| <= |t|
    ensures r == [] || r[0] != ' '
  {
    if t != [] && t[0] == ' ' then SkipSpaces(t[1..]) else t
  }

  /** What SkipSpaces leaves is the end of the string, and what it removes is spaces. */
  lemma {:induction false} SkipSpacesSuffix(t: Text)
    ensures |SkipSpaces(t)| <= |t| && SkipSpaces(t) == t[|t| - |SkipSpaces(t)|..]
    ensures forall k :: 0 <= k < |t| - |SkipSpaces(t)| ==> t[k] == ' '
  {
    if t != [] && t[0] == ' ' {
      var r := SkipSpaces(t[1..]);
      SkipSpacesSuffix(t[1..]);
      assert t[1..][|t| - 1 - |r|..] == t[|t| - |r|..];
      assert forall k :: 1 <= k < |t| - |r| ==> t[k] == t[1..][k - 1];
    }
  }

  /** The spaces that start a string end at its first other character. */
  lemma {:induction false} SkipSpacesAt(t: Text, n: nat)
    requires n <= |t| && forall k :: 0 <= k < n ==> t[k] == ' '
    requires n == |t| || t[n] != ' '
    ensures SkipSpaces(t) == t[n..]
  {
    if n > 0 {
      assert t[1..][n - 1..] == t[n..];
      SkipSpacesAt(t[1..], n - 1);
    }
  }

  /** The longest prefix of the string that holds no space. */
  function Word(t: Text): (w: Text)
    ensures |w| <= |t| && w == t[..|w|]
    ensures ' ' !in w
    ensures |w| < |t| ==> t[|w|] == ' '
  {
    if t == [] || t[0] == ' ' then []
    else
      var w := Word(t[1..]);
      assert [t[0]] + w == t[..|w| + 1];
      [t[0]] + w
  }

  function Spaces(k: nat): (r: Text)
  {
    seq(k, _ => ' ')
  }

  /** Leading spaces are exactly what SkipSpaces removes. */
  lemma {:induction false} SkipSpacesOver(k: nat, t: Text)
    requires t == [] || t[0] != ' '
    ensures SkipSpaces(Spaces(k) + t) == t
  {
    if k > 0 {
      assert (Spaces(k) + t)[1..] == Spaces(k - 1) + t;
      SkipSpacesOver(k - 1, t);
    }
  }

  /** The word that starts a string ends at its first space. */
  lemma {:induction false} WordAt(t: Text, n: nat)
    requires n <= |t| && forall k :: 0 <= k < n ==> t[k] != ' '
    requires n == |t| || t[n] == ' '
    ensures Word(t) == t[..n]
  {
    if n > 0 {
      assert t[1..][..n - 1] == t[1..n];
      WordAt(t[1..], n - 1);
      assert t[..n] == [t[0]] + t[1..n];
    }
  }

  /** A space-free prefix ended by a space or by the end is exactly one Word. */
  lemma {:induction false} WordOver(w: Text, t: Text)
    requires ' ' !in w
    requires t == [] || t[0] == ' '
    ensures Word(w + t) == w
  {
    if w != [] {
      assert (w + t)[1..] == w[1..] + t;
      WordOver(w[1..], t);
    }
  }
}
