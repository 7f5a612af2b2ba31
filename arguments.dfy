/** Argument passing in `process_exec` (userprog/process.c): the command
    line is split on spaces with `strtok_r`, and the words are laid out on
    the new user stack as section 3.2.3 of the System V AMD64 ABI
    describes: the NUL-terminated strings, padding to an 8-byte boundary,
    a null pointer, the pointers to the strings, and a fake return
    address; `rdi` holds argc and `rsi` the address of argv[0]'s slot. */
module Arguments {
  import opened Machine

  const SPACE: byte := 32
  const NUL: byte := 0
  /** Capacity of the `argv` array in `process_exec`. */
  const ARGV_SLOTS: int := 99

  /** Length of the word at the front of `s`: up to the first space. */
  function WordLen(s: seq<byte>): (n: nat)
    ensures n <= |s|
    ensures forall i :: 0 <= i < n ==> s[i] != SPACE
    ensures n < |s| ==> s[n] == SPACE
  {
    if s == [] || s[0] == SPACE then 0 else 1 + WordLen(s[1..])
  }

  /** The words `strtok_r (s, " ", ...)` returns, call after call: runs
      of spaces separate words and leading or trailing spaces give none. */
  function Tokens(s: seq<byte>): (ts: seq<seq<byte>>)
    ensures |ts| <= |s|
    decreases |s|
  {
    if s == [] then []
    else if s[0] == SPACE then Tokens(s[1..])
    else
      var n := WordLen(s);
      [s[..n]] + Tokens(s[n..])
  }

  ghost predicate IsWord(w: seq<byte>) {
    w != [] && forall i :: 0 <= i < |w| ==> w[i] != SPACE
  }

  /** Every token is a nonempty run of non-space bytes. */
  lemma {:induction false} TokensAreWords(s: seq<byte>)
    ensures forall k :: 0 <= k < |Tokens(s)| ==> IsWord(Tokens(s)[k])
    decreases |s|
  {
    if s != [] {
      if s[0] == SPACE {
        TokensAreWords(s[1..]);
      } else {
        var n := WordLen(s);
        TokensAreWords(s[n..]);
        assert IsWord(s[..n]);
      }
    }
  }

  /** The words separated by single spaces. */
  function Join(ws: seq<seq<byte>>): seq<byte>
  {
    if ws == [] then []
    else if |ws| == 1 then ws[0]
    else ws[0] + [SPACE] + Join(ws[1..])
  }

  lemma WordLenOf(w: seq<byte>, rest: seq<byte>)
    requires IsWord(w) && (rest == [] || rest[0] == SPACE)
    ensures WordLen(w + rest) == |w|
    decreases |w|
  {
    if |w| > 1 {
      assert (w + rest)[1..] == w[1..] + rest;
      WordLenOf(w[1..], rest);
    }
  }

  /** Splitting words joined by spaces gives the words back. */
  lemma {:induction false} TokensOfJoin(ws: seq<seq<byte>>)
    requires forall k :: 0 <= k < |ws| ==> IsWord(ws[k])
    ensures Tokens(Join(ws)) == ws
  {
    if ws != [] {
      var w := ws[0];
      var rest: seq<byte> := if |ws| == 1 then [] else [SPACE] + Join(ws[1..]);
      assert Join(ws) == w + rest;
      WordLenOf(w, rest);
      assert (w + rest)[..|w|] == w && (w + rest)[|w|..] == rest;
      if |ws| == 1 {
        assert Tokens(rest) == [];
      } else {
        TokensOfJoin(ws[1..]);
        assert rest[1..] == Join(ws[1..]);
      }
    }
  }

  /** Re-joining the tokens of a command line and splitting again changes
      nothing: tokenising normalises the spacing only. */
  lemma TokensNormalise(s: seq<byte>)
    ensures Tokens(Join(Tokens(s))) == Tokens(s)
  {
    TokensAreWords(s);
    TokensOfJoin(Tokens(s));
  }

  lemma TokensFrom(s: seq<byte>, i: int)
    requires 0 <= i < |s| && s[i] == SPACE
    ensures Tokens(s[i..]) == Tokens(s[i + 1..])
  {
    assert s[i..][1..] == s[i + 1..];
  }

  /** Appending the word at [i, j) keeps the tokens collected so far a
      prefix of the whole command line's tokens. */
  lemma TokensNext(s: seq<byte>, ts: seq<seq<byte>>, i: int, j: int)
    requires 0 <= i < j <= |s| && ts + Tokens(s[i..]) == Tokens(s)
    requires forall k :: i <= k < j ==> s[k] != SPACE
    requires j == |s| || s[j] == SPACE
    ensures (ts + [s[i..j]]) + Tokens(s[j..]) == Tokens(s)
  {
    TokensWord(s, i, j);
    AppendRegroup(ts, s[i..j], Tokens(s[j..]));
  }

  lemma AppendRegroup(ts: seq<seq<byte>>, w: seq<byte>, rest: seq<seq<byte>>)
    ensures ts + ([w] + rest) == (ts + [w]) + rest
  {
  }

  lemma TokensWord(s: seq<byte>, i: int, j: int)
    requires 0 <= i < j <= |s|
    requires forall k :: i <= k < j ==> s[k] != SPACE
    requires j == |s| || s[j] == SPACE
    ensures Tokens(s[i..]) == [s[i..j]] + Tokens(s[j..])
  {
    var t := s[i..];
    WordLenOf(s[i..j], s[j..]);
    assert t == s[i..j] + s[j..];
    assert t[..j - i] == s[i..j] && t[j - i..] == s[j..];
  }

  /** The tokenising loop of `process_exec`: each `strtok_r` call skips
      spaces and returns the next word. */
  method Tokenize(cmd: seq<byte>) returns (argv: seq<seq<byte>>)
    ensures argv == Tokens(cmd)
  {
    argv := [];
    var i := 0;
    assert cmd[0..] == cmd;
    while true
      invariant 0 <= i <= |cmd| && argv + Tokens(cmd[i..]) == Tokens(cmd)
      decreases |cmd| - i
    {
      while i < |cmd| && cmd[i] == SPACE
        invariant 0 <= i <= |cmd| && argv + Tokens(cmd[i..]) == Tokens(cmd)
      {
        TokensFrom(cmd, i);
        i := i + 1;
      }
      if i == |cmd| {
        assert argv + [] == argv;
        return;
      }
      var j := i + 1;
      while j < |cmd| && cmd[j] != SPACE
        invariant i < j <= |cmd| && forall k :: i <= k < j ==> cmd[k] != SPACE
      {
        j := j + 1;
      }
      TokensNext(cmd, argv, i, j);
      argv := argv + [cmd[i..j]];
      i := j;
    }
  }

  // ---------------------------------------------------------------- stack

  /** The registers of an interrupt frame that `process_exec` and the
      system-call handler use, and the user stack: `stack` holds the bytes
      at addresses [rsp, rsp + |stack|). */
  class IntrFrame {
    var rsp: int
    var rdi: int
    var rsi: int
    var rdx: int
    var rax: int
    var stack: seq<byte>

    constructor (top: int)
      ensures rsp == top && rdi == 0 && rsi == 0 && rdx == 0 && rax == 0 && stack == []
    {
      rsp, rdi, rsi, rdx, rax, stack := top, 0, 0, 0, 0, [];
    }
  }

  function Zeros(n: nat): (z: seq<byte>)
    ensures |z| == n
  {
    if n == 0 then [] else [0] + Zeros(n - 1)
  }

  /** `n` bytes of `w`, least significant first (x86-64 is little-endian). */
  function Le(w: int, n: nat): (r: seq<byte>)
    ensures |r| == n
    decreases n, w  // naming `w` keeps the verifier from unrolling Le(w, 8) eagerly
  {
    if n == 0 then [] else [w % 256] + Le(w / 256, n - 1)
  }

  /** The value of little-endian bytes. */
  function Word(s: seq<byte>): nat
  {
    if s == [] then 0 else s[0] + 256 * Word(s[1..])
  }

  function Pow256(n: nat): nat
  {
    if n == 0 then 1 else 256 * Pow256(n - 1)
  }

  /** Reading back the bytes of a stored word gives the word. */
  lemma {:induction false} WordOfLe(w: int, n: nat)
    requires 0 <= w < Pow256(n)
    ensures Word(Le(w, n)) == w
  {
    if n > 0 {
      WordOfLe(w / 256, n - 1);
      assert Le(w, n)[1..] == Le(w / 256, n - 1);
    }
  }

  lemma U64IsPow()
    ensures Pow256(8) == U64
  {
  }

  /** The argument strings with their NUL terminators as they lie on the
      stack, lowest address first: the last argument lowest, argv[0]
      highest. */
  function Strings(argv: seq<seq<byte>>): seq<byte>
  {
    if argv == [] then []
    else (argv[|argv| - 1] + [NUL]) + Strings(argv[..|argv| - 1])
  }

  /** The pointers, argv[0]'s lowest, each eight bytes. */
  function Pointers(addrs: seq<int>): (r: seq<byte>)
    ensures |r| == 8 * |addrs|
  {
    if addrs == [] then [] else Le(addrs[0], 8) + Pointers(addrs[1..])
  }

  /** Where argument `i`'s string starts when the strings are pushed below
      `top`. */
  function Addr(argv: seq<seq<byte>>, top: int, i: int): int
    requires 0 <= i < |argv|
  {
    top - |Strings(argv[..i + 1])|
  }

  function Addrs(argv: seq<seq<byte>>, top: int): (a: seq<int>)
    ensures |a| == |argv|
  {
    seq(|argv|, i requires 0 <= i < |argv| => Addr(argv, top, i))
  }

  /** Zero bytes that bring the strings' lowest address down to a
      multiple of 8 (`rsp & ~0x7`). */
  function Padding(argv: seq<seq<byte>>, top: int): nat
  {
    (top - |Strings(argv)|) % 8
  }

  /** The whole block `process_exec` pushes below `top`, lowest address
      first: fake return address, argv pointers, null pointer, padding,
      strings. */
  function Image(argv: seq<seq<byte>>, top: int): (img: seq<byte>)
    ensures |img| == 16 + 8 * |argv| + Padding(argv, top) + |Strings(argv)|
    ensures (top - |img|) % 8 == 0
  {
    Zeros(8) + Pointers(Addrs(argv, top)) + Zeros(8) + Zeros(Padding(argv, top)) + Strings(argv)
  }

  /** Room the image needs below `top`. */
  function Need(argv: seq<seq<byte>>): int
  {
    |Strings(argv)| + 7 + 8 * (|argv| + 2)
  }

  ghost predicate CString(w: seq<byte>) {
    forall i :: 0 <= i < |w| ==> w[i] != NUL
  }

  /** The first loop of the stack set-up: each string, with its NUL,
      is copied below the previous one; `str[i]` records where
      argument `i` went. */
  method PushStrings(f: IntrFrame, argv: seq<seq<byte>>) returns (str: seq<int>)
    requires forall i :: 0 <= i < |argv| ==> CString(argv[i])
    modifies f
    ensures f.stack == Strings(argv) + old(f.stack)
    ensures f.rsp == old(f.rsp) - |Strings(argv)|
    ensures str == Addrs(argv, old(f.rsp))
    ensures f.rdi == old(f.rdi) && f.rsi == old(f.rsi)
  {
    ghost var top, below := f.rsp, f.stack;
    str := [];
    var i := 0;
    while i < |argv|
      invariant 0 <= i <= |argv| && |str| == i
      invariant f.stack == Strings(argv[..i]) + below
      invariant f.rsp == top - |Strings(argv[..i])|
      invariant forall k :: 0 <= k < i ==> str[k] == Addr(argv, top, k)
      invariant f.rdi == old(f.rdi) && f.rsi == old(f.rsi)
    {
      var b := |argv[i]| + 1;
      assert argv[..i + 1][..i] == argv[..i] && argv[..i + 1][i] == argv[i];
      f.rsp := f.rsp - b;
      str := str + [f.rsp];
      f.stack := (argv[i] + [NUL]) + f.stack;
      i := i + 1;
    }
    assert argv[..|argv|] == argv;
  }

  /** The second loop: the pointers, from the last argument's down to
      argv[0]'s, each pushed as eight bytes. */
  method PushPointers(f: IntrFrame, str: seq<int>)
    modifies f
    ensures f.stack == Pointers(str) + old(f.stack)
    ensures f.rsp == old(f.rsp) - 8 * |str|
    ensures f.rdi == old(f.rdi) && f.rsi == old(f.rsi)
  {
    ghost var below := f.stack;
    var j := |str|;
    assert str[|str|..] == [];
    while j > 0
      invariant 0 <= j <= |str|
      invariant f.stack == Pointers(str[j..]) + below
      invariant f.rsp == old(f.rsp) - 8 * (|str| - j)
      invariant f.rdi == old(f.rdi) && f.rsi == old(f.rsi)
    {
      PushPointer(f, str, j - 1, below);
      j := j - 1;
    }
    assert str[0..] == str;
  }

  method PushPointer(f: IntrFrame, str: seq<int>, i: int, ghost below: seq<byte>)
    requires 0 <= i < |str|
    requires f.stack == Pointers(str[i + 1..]) + below
    modifies f
    ensures f.stack == Pointers(str[i..]) + below
    ensures f.rsp == old(f.rsp) - 8
    ensures f.rdi == old(f.rdi) && f.rsi == old(f.rsi)
  {
    f.rsp := f.rsp - 8;
    PointersStep(str, i);
    f.stack := Le(str[i], 8) + f.stack;
  }

  lemma PointersStep(str: seq<int>, i: int)
    requires 0 <= i < |str|
    ensures Pointers(str[i..]) == Le(str[i], 8) + Pointers(str[i + 1..])
  {
    PointersCons(str[i..]);
    assert str[i..][1..] == str[i + 1..];
  }

  /** The stack-building part of `process_exec`, from `argv[argc] = NULL`
      to the fake return address.  The strings come from a C string, so
      `strlen` of each is its length. */
  method PushArguments(f: IntrFrame, argv: seq<seq<byte>>)
    requires |argv| < ARGV_SLOTS
    requires forall i :: 0 <= i < |argv| ==> CString(argv[i])
    requires Need(argv) <= f.rsp < U64
    modifies f
    ensures f.rdi == |argv|
    ensures f.stack == Image(argv, old(f.rsp)) + old(f.stack)
    ensures f.rsp == old(f.rsp) - |Image(argv, old(f.rsp))|
    ensures f.rsi == f.rsp + 8
  {
    ghost var top, below := f.rsp, f.stack;
    f.rdi := |argv|;
    var str := PushStrings(f, argv);
    ghost var strings := f.stack;
    AlignStack(f, argv, top);
    ghost var upper := f.stack;
    PushPointers(f, str);
    f.rsi := f.rsp;
    f.rsp := f.rsp - 8;
    f.stack := Zeros(8) + f.stack;
    ImageParts(argv, top, below, f.stack, str, upper, strings);
  }

  /** Rounds `rsp` down to a multiple of 8, zero-filling the gap, then
      pushes the null pointer `argv[argc]`. */
  method AlignStack(f: IntrFrame, ghost argv: seq<seq<byte>>, ghost top: int)
    requires f.rsp == top - |Strings(argv)|
    modifies f
    ensures f.stack == Zeros(8) + (Zeros(Padding(argv, top)) + old(f.stack))
    ensures f.rsp == old(f.rsp) - Padding(argv, top) - 8
    ensures f.rdi == old(f.rdi) && f.rsi == old(f.rsi)
  {
    var num := f.rsp;
    f.rsp := f.rsp - f.rsp % 8;
    var checkNum := (num - f.rsp) % 256;
    f.stack := Zeros(checkNum) + f.stack;
    f.rsp := f.rsp - 8;
    f.stack := Zeros(8) + f.stack;
  }

  lemma ImageParts(argv: seq<seq<byte>>, top: int, below: seq<byte>, stack: seq<byte>,
                   str: seq<int>, upper: seq<byte>, strings: seq<byte>)
    requires str == Addrs(argv, top)
    requires strings == Strings(argv) + below
    requires upper == Zeros(8) + (Zeros(Padding(argv, top)) + strings)
    requires stack == Zeros(8) + (Pointers(str) + upper)
    ensures stack == Image(argv, top) + below
  {
  }

  lemma StringsBound(argv: seq<seq<byte>>)
    ensures |Strings(argv)| >= |argv|
  {
    if argv != [] {
      StringsBound(argv[..|argv| - 1]);
    }
  }

  /** `process_exec`'s argument passing: tokenise, then build the stack. */
  method PassArguments(f: IntrFrame, cmd: seq<byte>) returns (fileName: seq<byte>)
    requires CString(cmd)
    requires |Tokens(cmd)| < ARGV_SLOTS
    requires Need(Tokens(cmd)) <= f.rsp < U64
    modifies f
    ensures Tokens(cmd) != [] ==> fileName == Tokens(cmd)[0]
    ensures f.rdi == |Tokens(cmd)| && f.rsi == f.rsp + 8
    ensures f.stack == Image(Tokens(cmd), old(f.rsp)) + old(f.stack)
  {
    var argv := Tokenize(cmd);
    TokensSubstrings(cmd);
    fileName := if argv != [] then argv[0] else [];
    PushArguments(f, argv);
  }

  lemma {:induction false} TokensSubstrings(s: seq<byte>)
    requires CString(s)
    ensures forall k :: 0 <= k < |Tokens(s)| ==> CString(Tokens(s)[k])
    decreases |s|
  {
    if s != [] {
      if s[0] == SPACE {
        TokensSubstrings(s[1..]);
      } else {
        TokensSubstrings(s[WordLen(s)..]);
      }
    }
  }

  // ------------------------------------------------- reading the layout back

  lemma {:induction false} WordOfZeros(n: nat)
    ensures Word(Zeros(n)) == 0
  {
    if n > 0 {
      WordOfZeros(n - 1);
      assert Zeros(n)[1..] == Zeros(n - 1);
    }
  }

  lemma PointersCons(a: seq<int>)
    requires a != []
    ensures Pointers(a) == Le(a[0], 8) + Pointers(a[1..])
  {
  }

  lemma SliceRight(w: seq<byte>, r: seq<byte>, i: int, j: int, n: int)
    requires j == i - |w| && 0 <= j && 0 <= n && j + n <= |r|
    ensures (w + r)[i..i + n] == r[j..j + n]
  {
  }

  lemma SliceLeft(w: seq<byte>, r: seq<byte>)
    ensures (w + r)[..|w|] == w
  {
  }

  /** Pointer `k` occupies bytes [8k, 8k + 8) of the pointer block. */
  lemma {:induction false} PointersSlice(a: seq<int>, k: int)
    requires 0 <= k < |a|
    ensures Pointers(a)[8 * k..8 * k + 8] == Le(a[k], 8)
  {
    PointersCons(a);
    if k > 0 {
      PointersSlice(a[1..], k - 1);
      SliceRight(Le(a[0], 8), Pointers(a[1..]), 8 * k, 8 * (k - 1), 8);
      assert a[1..][k - 1] == a[k];
    } else {
      SliceLeft(Le(a[0], 8), Pointers(a[1..]));
    }
  }

  /** The strings of the first `m` arguments are the top of the block. */
  lemma {:induction false} StringsSuffix(argv: seq<seq<byte>>, m: int)
    requires 0 <= m <= |argv|
    ensures |Strings(argv[..m])| <= |Strings(argv)|
    ensures Strings(argv)[|Strings(argv)| - |Strings(argv[..m])|..] == Strings(argv[..m])
  {
    if m == |argv| {
      assert argv[..m] == argv;
    } else {
      var init := argv[..|argv| - 1];
      StringsSuffix(init, m);
      assert init[..m] == argv[..m];
    }
  }

  /** The strings of the first k + 1 arguments: argument k's below
      those of the first k. */
  lemma StringsPrefix(argv: seq<seq<byte>>, k: int)
    requires 0 <= k < |argv|
    ensures Strings(argv[..k + 1]) == (argv[k] + [NUL]) + Strings(argv[..k])
  {
    var p := argv[..k + 1];
    assert p[..k] == argv[..k] && p[k] == argv[k];
  }

  /** Argument `k`'s string, NUL included, lies where the strings of the
      first k + 1 arguments begin. */
  lemma StringAt(argv: seq<seq<byte>>, k: int)
    requires 0 <= k < |argv|
    ensures var S, T := Strings(argv), Strings(argv[..k + 1]);
      0 <= |S| - |T| && |S| - |T| + |argv[k]| + 1 <= |S| && S[|S| - |T|..|S| - |T| + |argv[k]| + 1] == argv[k] + [NUL]
  {
    StringsSuffix(argv, k + 1);
    StringsPrefix(argv, k);
    HeadOfSuffix(Strings(argv), Strings(argv[..k + 1]), argv[k] + [NUL], Strings(argv[..k]));
  }

  lemma HeadOfSuffix(S: seq<byte>, T: seq<byte>, u: seq<byte>, v: seq<byte>)
    requires |T| <= |S| && S[|S| - |T|..] == T && T == u + v
    ensures var o := |S| - |T|; 0 <= o && o + |u| <= |S| && S[o..o + |u|] == u
  {
    var o := |S| - |T|;
    assert S[o..o + |u|] == S[o..][..|u|];
  }

  /** argv[0]'s string ends at `top`, and each later argument's string
      ends just below the one before it. */
  lemma StringsDescend(argv: seq<seq<byte>>, top: int, k: int)
    requires 0 <= k < |argv|
    ensures k == 0 ==> Addr(argv, top, k) + |argv[k]| + 1 == top
    ensures k + 1 < |argv| ==> Addr(argv, top, k + 1) + |argv[k + 1]| + 1 == Addr(argv, top, k)
  {
    StringsPrefix(argv, k);
    if k == 0 {
      assert argv[..0] == [];
    }
    if k + 1 < |argv| {
      StringsPrefix(argv, k + 1);
    }
  }

  lemma SliceOfSlice(x: seq<byte>, y: seq<byte>, s: int, i: int, j: int)
    requires 0 <= s && s + |y| <= |x| && x[s..s + |y|] == y
    requires 0 <= i <= j <= |y|
    ensures x[s + i..s + j] == y[i..j]
  {
    forall t | 0 <= t < j - i
      ensures x[s + i..s + j][t] == y[i..j][t]
    {
      assert x[s + i + t] == x[s..s + |y|][i + t];
    }
  }

  /** The finished stack, read from `rsp` upward: `rsp` is 8-byte
      aligned; a zero fake return address; the argument pointers (see
      StackPointers); a null pointer; fewer than eight zero bytes of
      padding; then the strings. */
  lemma StackLayout(argv: seq<seq<byte>>, top: int)
    ensures var img, n := Image(argv, top), |argv|;
      && (top - |img|) % 8 == 0
      && |img| == 16 + 8 * n + Padding(argv, top) + |Strings(argv)|
      && Word(img[..8]) == 0
      && Word(img[8 + 8 * n..16 + 8 * n]) == 0
      && Padding(argv, top) < 8
      && (forall i :: 16 + 8 * n <= i < 16 + 8 * n + Padding(argv, top) ==> img[i] == 0)
  {
    ImageSlices(argv, top);
    WordOfZeros(8);
    PaddingZero(Image(argv, top), 16 + 8 * |argv|, Zeros(Padding(argv, top)));
  }

  /** At `rsp + 8` (the value of `rsi`), the address of each argument's
      string, in order. */
  lemma StackPointers(argv: seq<seq<byte>>, top: int)
    requires Need(argv) <= top < U64
    ensures var img := Image(argv, top);
      forall k :: 0 <= k < |argv| ==> Word(img[8 + 8 * k..16 + 8 * k]) == Addr(argv, top, k)
  {
    ImageFront(argv, top);
    forall k | 0 <= k < |argv|
      ensures Word(Image(argv, top)[8 + 8 * k..16 + 8 * k]) == Addr(argv, top, k)
    {
      PointerWord(argv, top, k, Image(argv, top), Pointers(Addrs(argv, top)));
    }
  }

  /** The image cut at its part boundaries. */
  lemma ImageSlices(argv: seq<seq<byte>>, top: int)
    ensures var img, n, p := Image(argv, top), |argv|, Padding(argv, top);
      && |img| == 16 + 8 * n + p + |Strings(argv)|
      && (top - |img|) % 8 == 0
      && img[..8] == Zeros(8)
      && img[8..8 + 8 * n] == Pointers(Addrs(argv, top))
      && img[8 + 8 * n..16 + 8 * n] == Zeros(8)
      && img[16 + 8 * n..16 + 8 * n + p] == Zeros(p)
  {
    ImageLength(argv, top);
    ImageAligned(argv, top);
    ImageFront(argv, top);
    ImageBack(argv, top);
  }

  lemma ImageFront(argv: seq<seq<byte>>, top: int)
    ensures var img, n := Image(argv, top), |argv|;
      && img[..8] == Zeros(8)
      && img[8..8 + 8 * n] == Pointers(Addrs(argv, top))
  {
    var P := Pointers(Addrs(argv, top));
    Front(Zeros(8), P, Zeros(8) + Zeros(Padding(argv, top)) + Strings(argv));
    assert Image(argv, top) == Zeros(8) + P + (Zeros(8) + Zeros(Padding(argv, top)) + Strings(argv));
  }

  lemma ImageBack(argv: seq<seq<byte>>, top: int)
    ensures var img, n, p := Image(argv, top), |argv|, Padding(argv, top);
      && img[8 + 8 * n..16 + 8 * n] == Zeros(8)
      && img[16 + 8 * n..16 + 8 * n + p] == Zeros(p)
  {
    var p := Padding(argv, top);
    Front(Zeros(8), Zeros(p), Strings(argv));
    Behind(Zeros(8) + Pointers(Addrs(argv, top)), Zeros(8) + Zeros(p) + Strings(argv));
  }

  /** The first two parts of a concatenation read back from it. */
  lemma Front(a: seq<byte>, b: seq<byte>, c: seq<byte>)
    ensures var x := a + b + c; x[..|a|] == a && x[|a|..|a| + |b|] == b
  {
  }

  /** A concatenation read from where its first part ends. */
  lemma Behind(a: seq<byte>, b: seq<byte>)
    ensures (a + b)[|a|..] == b
  {
  }

  /** Taking `(top - s) % 8` and then a multiple of 8 off `top - s`
      leaves a multiple of 8. */
  lemma RoundsDown(top: int, s: int, n: int, p: int, len: int)
    requires p == (top - s) % 8
    requires len == 16 + 8 * n + p + s
    ensures (top - len) % 8 == 0
  {
    var q := (top - s) / 8 - 2 - n;
    assert top - len == 8 * q;
  }

  lemma ImageLength(argv: seq<seq<byte>>, top: int)
    ensures |Image(argv, top)| == 16 + 8 * |argv| + Padding(argv, top) + |Strings(argv)|
  {
  }

  lemma ImageAligned(argv: seq<seq<byte>>, top: int)
    ensures (top - |Image(argv, top)|) % 8 == 0
  {
    ImageLength(argv, top);
    RoundsDown(top, |Strings(argv)|, |argv|, Padding(argv, top), |Image(argv, top)|);
  }

  lemma {:induction false} ZerosAt(n: nat, i: int)
    requires 0 <= i < n
    ensures Zeros(n)[i] == 0
  {
    if i > 0 {
      ZerosAt(n - 1, i - 1);
    }
  }

  lemma PaddingZero(img: seq<byte>, s: int, pad: seq<byte>)
    requires 0 <= s && s + |pad| <= |img| && img[s..s + |pad|] == pad
    requires pad == Zeros(|pad|)
    ensures forall i :: s <= i < s + |pad| ==> img[i] == 0
  {
    forall i | s <= i < s + |pad|
      ensures img[i] == 0
    {
      assert img[i] == img[s..s + |pad|][i - s];
      ZerosAt(|pad|, i - s);
    }
  }

  lemma PointerWord(argv: seq<seq<byte>>, top: int, k: int, img: seq<byte>, P: seq<byte>)
    requires Need(argv) <= top < U64
    requires 0 <= k < |argv|
    requires P == Pointers(Addrs(argv, top))
    requires 8 + |P| <= |img| && img[8..8 + |P|] == P
    ensures Word(img[8 + 8 * k..16 + 8 * k]) == Addr(argv, top, k)
  {
    var a := Addrs(argv, top);
    PointersSlice(a, k);
    SliceOfSlice(img, P, 8, 8 * k, 8 * k + 8);
    StringsSuffix(argv, k + 1);
    StringsBound(argv);
    U64IsPow();
    WordOfLe(a[k], 8);
  }

  /** And above the padding, each argument's NUL-terminated string at the
      address its pointer holds. */
  lemma StackStrings(argv: seq<seq<byte>>, top: int, k: int)
    requires 0 <= k < |argv|
    ensures var img := Image(argv, top);
      var off := Addr(argv, top, k) - (top - |img|);
      0 <= off && off + |argv[k]| + 1 <= |img| && img[off..off + |argv[k]| + 1] == argv[k] + [NUL]
  {
    ImageTail(argv, top);
    StringAt(argv, k);
    Located(Image(argv, top), Strings(argv), Strings(argv[..k + 1]), argv[k] + [NUL], |argv[k]| + 1, Addr(argv, top, k), top);
  }

  /** The strings are the top of the image. */
  lemma ImageTail(argv: seq<seq<byte>>, top: int)
    ensures var img, S := Image(argv, top), Strings(argv);
      |S| <= |img| && img[|img| - |S|..] == S
  {
    Behind(Zeros(8) + Pointers(Addrs(argv, top)) + Zeros(8) + Zeros(Padding(argv, top)), Strings(argv));
  }

  lemma Located(img: seq<byte>, S: seq<byte>, T: seq<byte>, w: seq<byte>, n: int, addr: int, top: int)
    requires n == |w| && addr == top - |T|
    requires |S| <= |img| && img[|img| - |S|..] == S
    requires 0 <= |S| - |T| && |S| - |T| + n <= |S| && S[|S| - |T|..|S| - |T| + n] == w
    ensures var off := addr - (top - |img|); 0 <= off && off + n <= |img| && img[off..off + n] == w
  {
    SliceOfSlice(img, S, |img| - |S|, |S| - |T|, |S| - |T| + n);
  }
}
