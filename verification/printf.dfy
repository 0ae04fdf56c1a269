/** `Printf` of trunk/kernel/display.c: a template scanner that sends literal
    bytes to `Putc` and expands the directives %c %s %d %i %x %X. */
module Format {
  import opened Bytes
  import opened Numerals
  import opened Display

  const Percent: u8 := 0x25
  /** the directive letters 'c', 's', 'd', 'i', 'x', 'X' */
  const DirChar: u8 := 0x63
  const DirString: u8 := 0x73
  const DirDec: u8 := 0x64
  const DirInt: u8 := 0x69
  const DirHex: u8 := 0x78
  const DirHexUpper: u8 := 0x58

  /** The capacity of the local copy `%s` makes with `strcpy`. */
  const StrCopyCapacity: nat := 64

  /** One variadic argument: an `int`, or the text a `%s` pointer refers to. */
  datatype Arg = Int(v: i32) | Str(s: seq<u8>)

  /** What a run of `Printf` tells about its template: the bytes it sends to
      the screen, and whether it reached the end of the template. */
  datatype Expansion = Expansion(out: seq<u8>, ok: bool)

  predicate IsDirective(d: u8)
  {
    d == DirChar || d == DirString || d == DirDec || d == DirInt || d == DirHex || d == DirHexUpper
  }

  predicate NoPercent(t: seq<u8>)
  {
    forall k | 0 <= k < |t| :: t[k] != Percent
  }

  /** Every '%' of the template is followed by a directive letter. */
  predicate Directed(t: seq<u8>)
  {
    forall k | 0 <= k < |t| && t[k] == Percent :: k + 1 < |t| && IsDirective(t[k + 1])
  }

  /** The argument a directive reads with `va_arg` is of the kind it expects:
      `%s` text fits the 64-byte copy, and `%d %i %x %X` never negate INT_MIN. */
  predicate ArgFits(d: u8, a: Arg)
  {
    if d == DirChar then a.Int?
    else if d == DirString then a.Str? && StrLen(a.s) < StrCopyCapacity
    else a.Int? && a.v != INT_MIN
  }

  /** The caller's obligation: each recognised directive the scan reaches has a
      fitting argument, in order. The scan stops at an unrecognised directive,
      so nothing after it is demanded; extra arguments are never read. */
  predicate ArgsFit(t: seq<u8>, args: seq<Arg>)
    decreases |t|
  {
    if t == [] then true
    else if t[0] != Percent then ArgsFit(t[1..], args)
    else if |t| < 2 || !IsDirective(t[1]) then true
    else |args| > 0 && ArgFits(t[1], args[0]) && ArgsFit(t[2..], args[1..])
  }

  /** The bytes one recognised directive shows. */
  function DirectiveText(d: u8, a: Arg): (r: seq<u8>)
    requires IsDirective(d) && ArgFits(d, a)
    ensures d != DirChar ==> NoNul(r)
  {
    if d == DirChar then [Trunc8(a.v)]
    else if d == DirString then Text(a.s)
    else if d == DirDec || d == DirInt then ItoaS(a.v, 10).value
    else ItoaS(a.v, 16).value
  }

  /** Reference semantics: the template expanded as text, without a screen. */
  function Expand(t: seq<u8>, args: seq<Arg>): Expansion
    requires ArgsFit(t, args)
    decreases |t|
  {
    if t == [] then Expansion([], true)
    else if t[0] != Percent then
      var e := Expand(t[1..], args);
      Expansion([t[0]] + e.out, e.ok)
    else if |t| < 2 || !IsDirective(t[1]) then
      Expansion([], false)
    else
      var e := Expand(t[2..], args[1..]);
      Expansion(DirectiveText(t[1], args[0]) + e.out, e.ok)
  }

  /** The expansion reaches the end of the template exactly when every '%' in
      it is followed by a directive letter. */
  lemma {:induction false} ExpandOkIffDirected(t: seq<u8>, args: seq<Arg>)
    requires ArgsFit(t, args)
    ensures Expand(t, args).ok <==> Directed(t)
    decreases |t|
  {
    if t == [] {
    } else if t[0] != Percent {
      ExpandOkIffDirected(t[1..], args);
      DirectedStep(t, 1);
    } else if |t| < 2 || !IsDirective(t[1]) {
      assert !Directed(t) by {
        assert t[0] == Percent;
      }
    } else {
      ExpandOkIffDirected(t[2..], args[1..]);
      DirectedStep(t, 2);
    }
  }

  /** A template without '%' expands to itself. */
  lemma {:induction false} ExpandLiteral(t: seq<u8>, args: seq<Arg>)
    requires NoPercent(t)
    ensures ArgsFit(t, args)
    ensures Expand(t, args) == Expansion(t, true)
    decreases |t|
  {
    if t != [] {
      assert NoPercent(t[1..]);
      ExpandLiteral(t[1..], args);
      assert [t[0]] + t[1..] == t;
    }
  }

  /** Dropping a literal byte, or a '%' and its directive letter, from the
      front of a template does not change whether it is directed. */
  lemma DirectedStep(t: seq<u8>, n: nat)
    requires n == 1 || n == 2
    requires n <= |t|
    requires n == 1 ==> t[0] != Percent
    requires n == 2 ==> t[0] == Percent && IsDirective(t[1])
    ensures Directed(t) <==> Directed(t[n..])
  {
  }

  /** The state after one directive, as one turn of the loop body produces it:
      `%c` sends the byte through `Putc`, the others show a C string with `Puts`. */
  function RenderDirective(st: Console, d: u8, a: Arg): (r: Console)
    requires IsDirective(d) && ArgFits(d, a)
    ensures r.color == st.color
    ensures st.x < Cols ==> r.x < Cols
  {
    if d == DirChar then Putc(st, Trunc8(a.v))
    else if d == DirString then Puts(st, Some(Text(a.s) + [0]))
    else if d == DirDec || d == DirInt then Puts(st, Some(ItoaS(a.v, 10).value + [0]))
    else Puts(st, Some(ItoaS(a.v, 16).value + [0]))
  }

  /** The byte `str[i+1]`: past the text it is the terminator. */
  function Next(t: seq<u8>, i: nat): u8
  {
    if i + 1 < |t| then t[i + 1] else 0
  }

  /** The loop of `Printf` from index `i` of the template text `t`, with the
      arguments not yet read; returns the state and the value `Printf`
      returns. */
  function Scan(st: Console, t: seq<u8>, i: nat, args: seq<Arg>): (r: (Console, int))
    requires NoNul(t) && i <= |t| && ArgsFit(t[i..], args)
    ensures r.0.color == st.color
    ensures st.x < Cols ==> r.0.x < Cols
    ensures r.1 == |t| || r.1 == 1
    decreases |t| - i
  {
    if i == |t| then (st, i)
    else if t[i] != Percent then
      assert t[i..][0] == t[i] && t[i..][1..] == t[i + 1..];
      Scan(Putc(st, t[i]), t, i + 1, args)
    else
      var d := Next(t, i);
      if !IsDirective(d) then (st, 1)
      else
        assert i + 1 < |t|;
        assert t[i..][0] == Percent && t[i..][1] == d && t[i..][2..] == t[i + 2..];
        Scan(RenderDirective(st, d, args[0]), t, i + 2, args[1..])
  }

  /** `Printf(str, ...)`: a null template returns 0 and does nothing. */
  function Printf(st: Console, template: Option<seq<u8>>, args: seq<Arg>): (r: (Console, int))
    requires template.Some? ==> ArgsFit(Text(template.value), args)
    ensures template.None? ==> r == (st, 0)
    ensures template.Some? ==> r.1 == StrLen(template.value) || r.1 == 1
    ensures r.0.color == st.color
    ensures st.x < Cols ==> r.0.x < Cols
  {
    match template
    case None => (st, 0)
    case Some(t) =>
      assert Text(t)[0..] == Text(t);
      Scan(st, Text(t), 0, args)
  }

  // ---------------------------------------------------------------------------
  // Printf renders its expansion

  lemma {:induction false} ScanRenders(st: Console, t: seq<u8>, i: nat, args: seq<Arg>)
    requires NoNul(t) && i <= |t| && ArgsFit(t[i..], args)
    ensures Scan(st, t, i, args)
            == (PutcAll(st, Expand(t[i..], args).out), if Expand(t[i..], args).ok then |t| else 1)
    decreases |t| - i
  {
    var u := t[i..];
    if i == |t| {
      assert u == [];
    } else if t[i] != Percent {
      assert u[0] == t[i] && u[1..] == t[i + 1..];
      var e := Expand(t[i + 1..], args);
      ScanRenders(Putc(st, t[i]), t, i + 1, args);
      assert ([t[i]] + e.out)[1..] == e.out;
    } else if !IsDirective(Next(t, i)) {
      assert u[0] == Percent;
      assert |u| >= 2 ==> u[1] == Next(t, i);
    } else {
      var d := Next(t, i);
      assert i + 1 < |t|;
      assert u[0] == Percent && u[1] == d && u[2..] == t[i + 2..];
      var a := args[0];
      var text := DirectiveText(d, a);
      var st1 := Scan(st, t, i, args);
      var e := Expand(t[i + 2..], args[1..]);
      assert Expand(u, args) == Expansion(text + e.out, e.ok);
      DirectiveRenders(st, d, a);
      ScanRenders(RenderDirective(st, d, a), t, i + 2, args[1..]);
      PutcAllConcat(st, text, e.out);
    }
  }

  /** Each directive shows exactly its text. */
  lemma DirectiveRenders(st: Console, d: u8, a: Arg)
    requires IsDirective(d) && ArgFits(d, a)
    ensures RenderDirective(st, d, a) == PutcAll(st, DirectiveText(d, a))
  {
    var text := DirectiveText(d, a);
    if d == DirChar {
      assert text[1..] == [];
    } else {
      PutsStopsAtNul(st, text, []);
      assert text + [0] + [] == text + [0];
    }
  }

  /** `Printf` shows exactly the expansion of its template and returns the
      template length when every directive was recognised, 1 otherwise. */
  lemma PrintfRenders(st: Console, t: seq<u8>, args: seq<Arg>)
    requires ArgsFit(Text(t), args)
    ensures Printf(st, Some(t), args)
            == (PutcAll(st, Expand(Text(t), args).out),
                if Directed(Text(t)) then StrLen(t) else 1)
  {
    assert Text(t)[0..] == Text(t);
    ScanRenders(st, Text(t), 0, args);
    ExpandOkIffDirected(Text(t), args);
  }

  // ---------------------------------------------------------------------------
  // Consequences

  /** A template without '%' is shown as `Puts` would show it, and its length
      is returned; no argument is read. */
  lemma PrintfLiteral(st: Console, t: seq<u8>, args: seq<Arg>)
    requires NoPercent(Text(t))
    ensures ArgsFit(Text(t), args)
    ensures Printf(st, Some(t), args) == (Puts(st, Some(t)), StrLen(t))
  {
    ExpandLiteral(Text(t), args);
    ExpandOkIffDirected(Text(t), args);
    PrintfRenders(st, t, args);
  }

  /** Literal bytes followed by a '%' that starts no directive: the expansion
      shows the literal bytes and stops there. */
  lemma {:induction false} ExpandStopsAtStray(p: seq<u8>, rest: seq<u8>, args: seq<Arg>)
    requires NoPercent(p)
    requires rest == [] || !IsDirective(rest[0])
    ensures ArgsFit(p + [Percent] + rest, args)
    ensures Expand(p + [Percent] + rest, args) == Expansion(p, false)
    decreases |p|
  {
    var t := p + [Percent] + rest;
    if p == [] {
      assert t == [Percent] + rest;
      assert t[0] == Percent && (|t| >= 2 ==> t[1] == rest[0]);
    } else {
      var t1 := p[1..] + [Percent] + rest;
      assert t[0] == p[0] != Percent && t[1..] == t1;
      assert ArgsFit(t1, args) && Expand(t1, args) == Expansion(p[1..], false) by {
        assert NoPercent(p[1..]);
        ExpandStopsAtStray(p[1..], rest, args);
      }
      assert [p[0]] + p[1..] == p;
    }
  }

  /** An unrecognised directive (also "%%" and a trailing '%') ends the call
      with 1; the literal bytes before it stay on the screen. */
  lemma PrintfUnsupported(st: Console, p: seq<u8>, rest: seq<u8>, args: seq<Arg>)
    requires NoNul(p) && NoPercent(p) && NoNul(rest)
    requires rest == [] || !IsDirective(rest[0])
    ensures ArgsFit(Text(p + [Percent] + rest), args)
    ensures Printf(st, Some(p + [Percent] + rest), args) == (PutcAll(st, p), 1)
  {
    var t := p + [Percent] + rest;
    assert NoNul(t) by {
      forall k | 0 <= k < |t| ensures t[k] != 0 {
        if k < |p| { assert t[k] == p[k]; }
        else if k > |p| { assert t[k] == rest[k - |p| - 1]; }
      }
    }
    TextOfNoNul(t);
    ExpandStopsAtStray(p, rest, args);
    ExpandOkIffDirected(t, args);
    PrintfRenders(st, t, args);
  }

  /** `Printf("%d", -42)` shows "-42" and returns 2. */
  lemma PrintfNegativeDecimal(st: Console)
    ensures ArgsFit(Text([Percent, DirDec]), [Int(-42)])
    ensures Printf(st, Some([Percent, DirDec]), [Int(-42)]) == (PutcAll(st, Ascii("-42")), 2)
  {
    assert DirectiveText(DirDec, Int(-42)) == Ascii("-42") by {
      assert Digits(42, 10) == [0x34, 0x32] by {
        DigitsStep(42, 10);
        DigitsStep(4, 10);
      }
      assert Ascii("-42") == [Minus, 0x34, 0x32];
    }
    SingleDirective(st, DirDec, Int(-42));
  }

  /** `%x` prints a sign and a magnitude, not the two's complement word:
      `Printf("%x", -255)` shows "-FF". */
  lemma PrintfNegativeHex(st: Console)
    ensures ArgsFit(Text([Percent, DirHex]), [Int(-255)])
    ensures Printf(st, Some([Percent, DirHex]), [Int(-255)]) == (PutcAll(st, Ascii("-FF")), 2)
  {
    assert DirectiveText(DirHex, Int(-255)) == Ascii("-FF") by {
      assert Digits(255, 16) == [0x46, 0x46] by {
        DigitsStep(255, 16);
        DigitsStep(15, 16);
      }
      assert Ascii("-FF") == [Minus, 0x46, 0x46];
    }
    SingleDirective(st, DirHex, Int(-255));
  }

  /** A template that is one directive shows that directive's text and
      returns 2. */
  lemma SingleDirective(st: Console, d: u8, a: Arg)
    requires IsDirective(d) && ArgFits(d, a)
    ensures ArgsFit(Text([Percent, d]), [a])
    ensures Printf(st, Some([Percent, d]), [a]) == (PutcAll(st, DirectiveText(d, a)), 2)
  {
    var t := [Percent, d];
    assert t[2..] == [] && [a][1..] == [];
    assert NoNul(t);
    TextOfNoNul(t);
    assert ArgsFit(t[2..], [a][1..]);
    assert Expand(t[2..], [a][1..]) == Expansion([], true);
    var e := Expand(t, [a]);
    assert t[0] == Percent && t[1] == d && |t| == 2;
    assert e == Expansion(DirectiveText(d, a) + [], true);
    assert DirectiveText(d, a) + [] == DirectiveText(d, a);
    PrintfRenders(st, t, [a]);
    ExpandOkIffDirected(t, [a]);
  }
}
