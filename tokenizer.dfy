// The shell's command-line parsing in kernel/kernel.c: next_token and
// cut_token over the input buffer, and the "CMD [arg1] [arg2]" split that
// user_input performs before dispatching.

module Tokenizer {
  import opened CStrings

  // ---------------------------------------------------------------------------
  // The tokenizer on strings

  /** `a` is the end of `b`: what is left after skipping some prefix of it. */
  predicate EndOf(a: seq<char>, b: seq<char>)
  {
    |a| <= |b| && a == b[|b| - |a|..]
  }

  lemma EndOfTrans(a: seq<char>, b: seq<char>, c: seq<char>)
    requires EndOf(a, b) && EndOf(b, c)
    ensures EndOf(a, c)
  {
    assert c[|c| - |b|..][|b| - |a|..] == c[|c| - |a|..];
  }

  /** next_token: skip spaces; a null pointer, or nothing left after the
      spaces, gives null. */
  function Next(p: Option<Text>): (r: Option<Text>)
    ensures p.None? ==> r.None?
    ensures r.Some? ==> r.value != [] && r.value[0] != ' ' && EndOf(r.value, p.value)
    ensures r.Some? ==> forall k :: 0 <= k < |p.value| - |r.value| ==> p.value[k] == ' '
    ensures p.Some? && r.None? ==> forall k :: 0 <= k < |p.value| ==> p.value[k] == ' '
  {
    if p.None? then None
    else
      var s := SkipSpaces(p.value);
      SkipSpacesSuffix(p.value);
      if s == [] then None else Some(s)
  }

  /** cut_token: the word at the start of `t`, and what follows the space that
      ends it (null when the word runs to the end of the string). */
  function Cut(t: Text): (r: (Text, Option<Text>))
  {
    var w := Word(t);
    if |w| == |t| then (w, None) else (w, Some(t[|w| + 1..]))
  }

  /** cut_token splits a string into a word without spaces and, when a space
      ends the word, the rest after that space: the two put back together
      around the space give the string again. */
  lemma CutRejoins(t: Text)
    ensures ' ' !in Cut(t).0
    ensures Cut(t).1.None? <==> Cut(t).0 == t
    ensures Cut(t).1.Some? ==> t == Cut(t).0 + [' '] + Cut(t).1.value
  {
    var w := Word(t);
    if |w| < |t| {
      assert t == t[..|w|] + [t[|w|]] + t[|w| + 1..];
    }
  }

  /** The three tokens of a command line; `arg2` is never cut, so it is the
      whole rest of the line. */
  datatype Tokens = Tokens(cmd: Text, arg1: Option<Text>, arg2: Option<Text>)

  /** The parse of user_input: None when the line holds nothing but spaces.
      The second argument, when there is one, is the whole end of the line. */
  function Tokenize(u: Text): (r: Option<Tokens>)
    ensures r.Some? && r.value.arg2.Some? ==> EndOf(r.value.arg2.value, u)
  {
    var cmd := Next(Some(u));
    if cmd.None? then None
    else
      var p1 := Cut(cmd.value).1;
      var a1 := Next(p1);
      var p2 := if a1.Some? then Cut(a1.value).1 else p1;
      var a2 := Next(p2);
      if a2.Some? then
        assert EndOf(p2.value, u) by {
          CutRejoins(cmd.value);
          assert EndOf(p1.value, cmd.value);
          EndOfTrans(p1.value, cmd.value, u);
          if a1.Some? {
            CutRejoins(a1.value);
            assert EndOf(p2.value, a1.value);
            EndOfTrans(p2.value, a1.value, p1.value);
            EndOfTrans(p2.value, p1.value, u);
          }
        }
        EndOfTrans(a2.value, p2.value, u);
        Some(Tokens(Cut(cmd.value).0, if a1.Some? then Some(Cut(a1.value).0) else None, a2))
      else
        Some(Tokens(Cut(cmd.value).0, if a1.Some? then Some(Cut(a1.value).0) else None, a2))
  }

  /** What user_input does with a line. */
  datatype Command =
    | End
    | Page
    | Blank
    | List
    | Create(name: Option<Text>, size: Option<Text>)
    | Rename(from: Option<Text>, to: Option<Text>)
    | Del(name: Option<Text>)
    | Unknown

  /** The handler the command token selects, and the arguments it passes:
      CREATE and RENAME take both, DEL only the first. */
  function Dispatch(t: Tokens): (c: Command)
    ensures !c.End? && !c.Page? && !c.Blank?
    ensures c.Create? ==> c == Create(t.arg1, t.arg2)
    ensures c.Rename? ==> c == Rename(t.arg1, t.arg2)
    ensures c.Del? ==> c == Del(t.arg1)
    ensures c.List? <==> t.cmd == "LIST"
    ensures c.Create? <==> t.cmd == "CREATE"
    ensures c.Rename? <==> t.cmd == "RENAME"
    ensures c.Del? <==> t.cmd == "DEL"
    ensures c.Unknown? <==> t.cmd !in ["LIST", "CREATE", "RENAME", "DEL"]
  {
    if t.cmd == "LIST" then List
    else if t.cmd == "CREATE" then Create(t.arg1, t.arg2)
    else if t.cmd == "RENAME" then Rename(t.arg1, t.arg2)
    else if t.cmd == "DEL" then Del(t.arg1)
    else Unknown
  }

  /** The command an upper-cased line `u` selects: END and PAGE are compared
      against the whole line, the other commands against its first token. */
  function Classify(u: Text): (c: Command)
    ensures c.End? <==> u == "END"
    ensures c.Page? <==> u == "PAGE"
    ensures c.Blank? <==> forall i :: 0 <= i < |u| ==> u[i] == ' '
    ensures u != "END" && u != "PAGE" && Tokenize(u).Some? ==> c == Dispatch(Tokenize(u).value)
  {
    BlankIffSpaces(u);
    if u == "END" then End
    else if u == "PAGE" then Page
    else
      match Tokenize(u)
      case None => Blank
      case Some(t) => Dispatch(t)
  }

  // ---------------------------------------------------------------------------
  // Properties of the parse

  /** Tokens are non-empty; the command and the first argument hold no space;
      the second argument starts with a non-space and exists only after a first. */
  lemma TokensShape(u: Text)
    ensures Tokenize(u).Some? ==>
      var t := Tokenize(u).value;
      t.cmd != [] && ' ' !in t.cmd &&
      (t.arg1.Some? ==> t.arg1.value != [] && ' ' !in t.arg1.value) &&
      (t.arg2.Some? ==> t.arg1.Some? && t.arg2.value != [] && t.arg2.value[0] != ' ')
  {
  }

  /** A line is blank exactly when it holds only spaces. */
  lemma BlankIffSpaces(u: Text)
    ensures Tokenize(u).None? <==> forall i :: 0 <= i < |u| ==> u[i] == ' '
  {
    if forall i :: 0 <= i < |u| ==> u[i] == ' ' {
      SkipSpacesAt(u, |u|);
    } else {
      var i :| 0 <= i < |u| && u[i] != ' ';
      NotAllSpaces(u, i);
    }
  }

  lemma {:induction false} NotAllSpaces(u: Text, i: nat)
    requires i < |u| && u[i] != ' '
    ensures SkipSpaces(u) != []
  {
    if u[0] == ' ' {
      NotAllSpaces(u[1..], i - 1);
    }
  }

  /** next_token over a run of spaces in front of a non-space. */
  lemma NextOver(k: nat, t: Text)
    requires t != [] && t[0] != ' '
    ensures Next(Some(Spaces(k) + t)) == Some(t)
  {
    SkipSpacesOver(k, t);
  }

  /** cut_token on a word followed by a space. */
  lemma CutOver(w: Text, r: Text)
    requires ' ' !in w
    ensures Cut(w + " " + r) == (w, Some(r))
  {
    WordOver(w, " " + r);
    assert w + " " + r == w + (" " + r);
    assert (w + " " + r)[|w| + 1..] == r;
  }

  /** A line of a command word, a first argument and a rest, separated by runs
      of spaces, splits into exactly those three tokens; the rest keeps its
      inner spaces. */
  lemma TokenizeThree(i: nat, c: Text, j: nat, a1: Text, k: nat, a2: Text)
    requires c != [] && ' ' !in c && a1 != [] && ' ' !in a1
    requires a2 != [] && a2[0] != ' '
    ensures Tokenize(Spaces(i) + (c + " " + (Spaces(j) + (a1 + " " + (Spaces(k) + a2)))))
         == Some(Tokens(c, Some(a1), Some(a2)))
  {
    var r2 := Spaces(k) + a2;
    var r1 := Spaces(j) + (a1 + " " + r2);
    NextOver(i, c + " " + r1);
    CutOver(c, r1);
    NextOver(j, a1 + " " + r2);
    CutOver(a1, r2);
    NextOver(k, a2);
  }

  /** next_token on nothing but spaces gives null. */
  lemma NextSpaces(k: nat)
    ensures Next(Some(Spaces(k))) == None
  {
    SkipSpacesOver(k, []);
    assert Spaces(k) + [] == Spaces(k);
  }

  /** cut_token on a word that ends the line, perhaps after trailing spaces:
      nothing follows it. */
  lemma CutLast(w: Text, j: nat)
    requires ' ' !in w
    ensures Cut(w + Spaces(j)).0 == w && Next(Cut(w + Spaces(j)).1) == None
  {
    if j == 0 {
      assert w + Spaces(0) == w + [];
      WordOver(w, []);
    } else {
      assert Spaces(j) == " " + Spaces(j - 1);
      assert w + Spaces(j) == w + " " + Spaces(j - 1);
      CutOver(w, Spaces(j - 1));
      NextSpaces(j - 1);
    }
  }

  /** A line holding one word, with any spaces around it, is a command with
      no arguments. */
  lemma TokenizeOne(i: nat, c: Text, j: nat)
    requires c != [] && ' ' !in c
    ensures Tokenize(Spaces(i) + (c + Spaces(j))) == Some(Tokens(c, None, None))
  {
    NextOver(i, c + Spaces(j));
    CutLast(c, j);
  }

  /** A line holding two words, with any spaces around them, is a command with
      a first argument and no second one. */
  lemma TokenizeTwo(i: nat, c: Text, j: nat, a1: Text, k: nat)
    requires c != [] && ' ' !in c && a1 != [] && ' ' !in a1
    ensures Tokenize(Spaces(i) + (c + " " + (Spaces(j) + (a1 + Spaces(k)))))
         == Some(Tokens(c, Some(a1), None))
  {
    var r1 := Spaces(j) + (a1 + Spaces(k));
    NextOver(i, c + " " + r1);
    CutOver(c, r1);
    NextOver(j, a1 + Spaces(k));
    CutLast(a1, k);
  }

  /** A line of a command word, a first argument and a rest is dispatched on
      the word, with the first argument and the whole rest. */
  lemma ClassifyThree(i: nat, c: Text, j: nat, a1: Text, k: nat, a2: Text)
    requires c != [] && ' ' !in c && a1 != [] && ' ' !in a1
    requires a2 != [] && a2[0] != ' '
    ensures Classify(Spaces(i) + (c + " " + (Spaces(j) + (a1 + " " + (Spaces(k) + a2)))))
         == Dispatch(Tokens(c, Some(a1), Some(a2)))
  {
    var u := Spaces(i) + (c + " " + (Spaces(j) + (a1 + " " + (Spaces(k) + a2))));
    TokenizeThree(i, c, j, a1, k, a2);
    assert |u| > 4;
  }

  /** RENAME receives the whole rest of the line as the new name, spaces
      included: `RENAME A B C` renames `A` to `B C`. */
  lemma RenamePassesRest(i: nat, j: nat, a1: Text, k: nat, a2: Text)
    requires a1 != [] && ' ' !in a1
    requires a2 != [] && a2[0] != ' '
    ensures Classify(Spaces(i) + ("RENAME" + " " + (Spaces(j) + (a1 + " " + (Spaces(k) + a2)))))
         == Rename(Some(a1), Some(a2))
  {
    ClassifyThree(i, "RENAME", j, a1, k, a2);
  }

  // ---------------------------------------------------------------------------
  // The tokenizer on the input buffer

  /** The C string a `char*` into `s` points at; a negative index is null. */
  function Ptr(s: seq<char>, p: int): (r: Option<Text>)
    requires p < 0 || (p < |s| && NUL in s[p..])
  {
    if p < 0 then None else Some(CStr(s[p..]))
  }

  /** next_token read off the positions where the spaces end (`q`) and where
      the string ends (`e`). */
  lemma NextAt(s: seq<char>, p: nat, q: nat, e: nat)
    requires p <= q <= e < |s| && s[e] == NUL
    requires forall k :: p <= k < e ==> s[k] != NUL
    requires forall k :: p <= k < q ==> s[k] == ' '
    requires q == e || s[q] != ' '
    ensures NUL in s[p..] && NUL in s[q..]
    ensures Next(Ptr(s, p)) == if s[q] == NUL then None else Ptr(s, q)
  {
    CStrAt(s, p, e);
    CStrAt(s, q, e);
    SkipSpacesAt(s[p..e], q - p);
    assert s[p..e][q - p..] == s[q..e];
  }

  /** cut_token read off the position `q` where the word ends, which is the
      terminator `e` of the string. */
  lemma CutAtEnd(s: seq<char>, p: nat, e: nat)
    requires p <= e < |s| && s[e] == NUL
    requires forall k :: p <= k < e ==> s[k] != NUL && s[k] != ' '
    ensures NUL in s[p..]
    ensures Cut(CStr(s[p..])) == (CStr(s[p..]), None) && |CStr(s[p..])| == e - p
  {
    CStrAt(s, p, e);
    var t := s[p..e];
    WordAt(t, e - p);
    assert t[..e - p] == t;
  }

  /** The word of the string at `p` ends at the space at `q`. */
  lemma CutWord(s: seq<char>, p: nat, q: nat, e: nat)
    requires p <= q < e < |s| && s[e] == NUL
    requires forall k :: p <= k < e ==> s[k] != NUL
    requires forall k :: p <= k < q ==> s[k] != ' '
    requires s[q] == ' '
    ensures NUL in s[p..] && CStr(s[p..]) == s[p..e]
    ensures Cut(s[p..e]).0 == s[p..q] && Cut(s[p..e]).1.Some? && Cut(s[p..e]).1.value == s[q + 1..e]
  {
    CStrAt(s, p, e);
    var t := s[p..e];
    WordAt(t, q - p);
    assert t[..q - p] == s[p..q];
    assert t[q - p + 1..] == s[q + 1..e];
  }

  /** cut_token read off the position `q` of the space that ends the word,
      before the terminator `e`; `s'` is `s` with a NUL written at `q`. */
  lemma CutAtSpace(s: seq<char>, s': seq<char>, p: nat, q: nat, e: nat)
    requires p <= q < e < |s| && s[e] == NUL
    requires forall k :: p <= k < e ==> s[k] != NUL
    requires forall k :: p <= k < q ==> s[k] != ' '
    requires s[q] == ' '
    requires |s'| == |s| && s'[q] == NUL && forall k :: 0 <= k < |s| && k != q ==> s'[k] == s[k]
    ensures NUL in s[p..] && NUL in s'[p..] && NUL in s'[q + 1..]
    ensures Cut(CStr(s[p..])) == (CStr(s'[p..]), Ptr(s', q + 1))
    ensures |CStr(s'[p..])| == q - p
  {
    CutWord(s, p, q, e);
    CStrCopied(s, s', p, q);
    CStrCopied(s, s', q + 1, e);
  }

  /** A NUL-free stretch of `s` copied into `s'` and terminated there at `e`
      is the C string `s'` holds from `p`. */
  lemma CStrCopied(s: seq<char>, s': seq<char>, p: nat, e: nat)
    requires p <= e < |s| == |s'| && s'[e] == NUL
    requires forall k :: p <= k < e ==> s'[k] == s[k] && s[k] != NUL
    ensures NUL in s'[p..] && CStr(s'[p..]) == s[p..e]
  {
    CStrAt(s', p, e);
    assert s'[p..e] == s[p..e];
  }

  /** next_token on a pointer into the buffer. */
  method NextToken(a: array<char>, p: int) returns (q: int)
    requires p < 0 || (p < a.Length && NUL in a[..][p..])
    ensures q < 0 || (0 <= p <= q < a.Length && NUL in a[..][q..] && a[q] != ' ')
    ensures Ptr(a[..], q) == Next(Ptr(a[..], p))
  {
    if p < 0 {
      return -1;
    }
    ghost var e := Terminator(a[..], p);
    q := p;
    while a[q] == ' '
      invariant p <= q <= e
      invariant forall k :: p <= k < q ==> a[k] == ' '
      decreases e - q
    {
      q := q + 1;
    }
    NextAt(a[..], p, q, e);
    if a[q] == NUL {
      q := -1;
    }
  }

  /** cut_token on a pointer into the buffer: ends the word at `p` with a NUL
      where its space was and returns the index after it, or -1 (null) when
      the word runs to the end of the string. */
  method CutToken(a: array<char>, p: int) returns (q: int)
    requires 0 <= p < a.Length && NUL in a[..][p..]
    modifies a
    ensures var w := Cut(CStr(old(a[..])[p..])).0;
      NUL in a[..][p..] && Ptr(a[..], p) == Some(w) && p + |w| < a.Length && a[p + |w|] == NUL &&
      (q < 0 || q == p + |w| + 1) &&
      forall k :: 0 <= k < a.Length && k != p + |w| ==> a[k] == old(a[k])
    ensures q < 0 || (q < a.Length && NUL in a[..][q..])
    ensures Ptr(a[..], q) == Cut(CStr(old(a[..])[p..])).1
  {
    ghost var s := a[..];
    ghost var e := Terminator(s, p);
    q := p;
    while a[q] != NUL && a[q] != ' '
      invariant p <= q <= e
      invariant forall k :: p <= k < q ==> a[k] != ' '
      decreases e - q
    {
      q := q + 1;
    }
    q := EndWord(a, p, q, e);
  }

  /** The end of cut_token, once the scan has stopped at index `q`, at the
      terminator `e` or at a space before it. */
  method EndWord(a: array<char>, p: int, q: int, ghost e: nat) returns (r: int)
    requires 0 <= p <= q <= e < a.Length && a[e] == NUL
    requires forall k :: p <= k < e ==> a[k] != NUL
    requires forall k :: p <= k < q ==> a[k] != ' '
    requires a[q] == NUL || a[q] == ' '
    modifies a
    ensures NUL in old(a[..])[p..]
    ensures var w := Cut(CStr(old(a[..])[p..])).0;
      NUL in a[..][p..] && Ptr(a[..], p) == Some(w) && p + |w| < a.Length && a[p + |w|] == NUL &&
      (r < 0 || r == p + |w| + 1) &&
      forall k :: 0 <= k < a.Length && k != p + |w| ==> a[k] == old(a[k])
    ensures r < 0 || (r < a.Length && NUL in a[..][r..])
    ensures Ptr(a[..], r) == Cut(CStr(old(a[..])[p..])).1
  {
    ghost var s := a[..];
    if a[q] == NUL {
      CutAtEnd(s, p, q);
      assert |Cut(CStr(s[p..])).0| == q - p;
      r := -1;
    } else {
      a[q] := NUL;
      assert a[..] == s[q := NUL];
      CutAtSpace(s, a[..], p, q, e);
      assert |Cut(CStr(s[p..])).0| == q - p;
      r := q + 1;
    }
  }

  /** Lines 197-198 of user_input: from `p`, just past the command token at
      `cmd`, take the first argument and cut it when there is one, then take
      the rest of the line, uncut, as the second argument. The command token
      is left as it was. */
  method SplitArgs(a: array<char>, p: int, ghost cmd: nat) returns (arg1: int, arg2: int)
    requires p < 0 || (p < a.Length && NUL in a[..][p..])
    requires cmd < a.Length && NUL in a[..][cmd..]
    requires p < 0 || Terminator(a[..], cmd) < p
    modifies a
    ensures NUL in a[..][cmd..] && CStr(a[..][cmd..]) == CStr(old(a[..])[cmd..])
    ensures arg1 < 0 || (arg1 < a.Length && NUL in a[..][arg1..])
    ensures arg2 < 0 || (arg2 < a.Length && NUL in a[..][arg2..])
    ensures var a1 := Next(Ptr(old(a[..]), p));
      Ptr(a[..], arg1) == (if a1.Some? then Some(Cut(a1.value).0) else None) &&
      Ptr(a[..], arg2) == Next(if a1.Some? then Cut(a1.value).1 else Ptr(old(a[..]), p))
  {
    ghost var b := a[..];
    ghost var e0 := Terminator(b, cmd);
    arg1 := NextToken(a, p);
    var q := p;
    if arg1 >= 0 {
      q := CutToken(a, arg1);
    }
    CStrKept(b, a[..], cmd, e0);
    arg2 := NextToken(a, q);
  }

  /** Lines 194-198 of user_input: take the command token and cut it, take
      the first argument and cut it when there is one, and take the rest of
      the line, uncut, as the second argument. */
  method SplitLine(a: array<char>) returns (t: Option<Tokens>)
    requires NUL in a[..]
    modifies a
    ensures t == Tokenize(CStr(old(a[..])))
  {
    assert a[..] == a[..][0..];
    var cmd := NextToken(a, 0);
    if cmd < 0 {
      return None;
    }
    var p := CutToken(a, cmd);
    var arg1, arg2 := SplitArgs(a, p, cmd);
    t := Some(Tokens(Ptr(a[..], cmd).value, Ptr(a[..], arg1), Ptr(a[..], arg2)));
  }

  /** The parse of user_input on the input buffer: capitalise the line, test
      the whole of it against END and PAGE, then split it into tokens. */
  method ParseLine(a: array<char>) returns (c: Command)
    requires NUL in a[..]
    modifies a
    ensures c == Classify(Upcase(CStr(old(a[..]))))
  {
    ToUpperInPlace(a);
    var line := CStr(a[..]);
    if line == "END" {
      return End;
    }
    if line == "PAGE" {
      return Page;
    }
    var t := SplitLine(a);
    if t.None? {
      c := Blank;
    } else {
      c := Dispatch(t.value);
    }
  }
}
