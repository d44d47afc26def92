/** Command-line port flags of the desktop shell (src-tauri/src/main.rs).

    `parse_port_arg` scans the argument list once, left to right. An argument
    equal to the flag takes the next argument as its value (consuming it, even
    when it is itself a flag); an argument of the form `flag=value` carries its
    own value. Every value that parses as a `u16` replaces the port seen so far. */
module PortArg {
  import opened Json

  const BACKEND_PORT_FLAG := "--backend-port"
  const DEFAULT_BACKEND_PORT: nat := 5000
  const FRONTEND_PORT_FLAG := "--frontend-port"
  const DEFAULT_FRONTEND_PORT: nat := 1420

  const U16_MAX: nat := 65535

  predicate IsDigit(c: char) { '0' <= c <= '9' }

  predicate AllDigits(s: string) {
    forall k :: 0 <= k < |s| ==> IsDigit(s[k])
  }

  function DigitValue(c: char): nat
    requires IsDigit(c)
  {
    c as int - '0' as int
  }

  /** The number a non-empty run of decimal digits denotes (leading zeros allowed). */
  function DigitsValue(s: string): nat
    requires AllDigits(s)
    decreases |s|
  {
    if s == [] then 0 else DigitsValue(s[..|s| - 1]) * 10 + DigitValue(s[|s| - 1])
  }

  /** Rust's `str::parse::<u16>`: an optional leading `+`, then at least one
      ASCII digit, with a value that fits in 16 bits. */
  function ParseU16(s: string): (r: Option<nat>)
    ensures r.Some? ==> r.value <= U16_MAX
    ensures r.Some? ==> s != [] && s != "+"
  {
    var digits := if |s| > 0 && s[0] == '+' then s[1..] else s;
    if digits == [] || !AllDigits(digits) then None
    else if DigitsValue(digits) <= U16_MAX then Some(DigitsValue(digits))
    else None
  }

  /** The values offered for `flag`, in order, one per occurrence: the parsed
      value of the argument after a bare flag, or of the text after `flag=`.
      A bare flag at the very end offers nothing. */
  function Offers(args: seq<string>, flag: string): seq<Option<nat>>
    decreases |args|
  {
    if args == [] then []
    else if args[0] == flag then
      (if |args| == 1 then [] else [ParseU16(args[1])] + Offers(args[2..], flag))
    else if StartsWith(args[0], flag + "=") then
      [ParseU16(args[0][|flag| + 1..])] + Offers(args[1..], flag)
    else Offers(args[1..], flag)
  }

  /** The last offered value that parsed, or `dflt` when none did. */
  function LastValid(offers: seq<Option<nat>>, dflt: nat): nat
    decreases |offers|
  {
    if offers == [] then dflt
    else if offers[|offers| - 1].Some? then offers[|offers| - 1].value
    else LastValid(offers[..|offers| - 1], dflt)
  }

  /** The scan of `args` ends on a bare flag with no argument after it. */
  predicate Dangling(args: seq<string>, flag: string)
    decreases |args|
  {
    if args == [] then false
    else if args[0] == flag then (if |args| == 1 then true else Dangling(args[2..], flag))
    else Dangling(args[1..], flag)
  }

  /** `parse_port_arg(args, flag, default_port)`. */
  method ParsePortArg(args: seq<string>, flag: string, defaultPort: nat) returns (port: nat)
    requires defaultPort <= U16_MAX
    ensures port == LastValid(Offers(args, flag), defaultPort)
    ensures port <= U16_MAX
  {
    port := defaultPort;
    var i := 0;
    while i < |args|
      invariant 0 <= i <= |args|
      invariant port <= U16_MAX
      invariant LastValid(Offers(args[i..], flag), port) == LastValid(Offers(args, flag), defaultPort)
      decreases |args| - i
    {
      var arg := args[i];
      i := i + 1;
      assert args[i - 1..][1..] == args[i..];
      if arg == flag {
        if i < |args| {
          var val := args[i];
          i := i + 1;
          assert args[i - 2..][2..] == args[i..];
          LastValidCons(ParseU16(val), Offers(args[i..], flag), port);
          var parsed := ParseU16(val);
          if parsed.Some? {
            port := parsed.value;
          }
        }
      } else if StartsWith(arg, flag + "=") {
        var rest := arg[|flag| + 1..];
        LastValidCons(ParseU16(rest), Offers(args[i..], flag), port);
        var parsed := ParseU16(rest);
        if parsed.Some? {
          port := parsed.value;
        }
      }
    }
  }

  // ---------------------------------------------------------------------------
  // Lemmas

  lemma {:induction false} LastValidCons(o: Option<nat>, rest: seq<Option<nat>>, d: nat)
    ensures LastValid([o] + rest, d) == LastValid(rest, if o.Some? then o.value else d)
    decreases |rest|
  {
    if rest == [] {
      assert ([o] + rest)[..0] == [];
    } else {
      var all := [o] + rest;
      assert all[..|all| - 1] == [o] + rest[..|rest| - 1];
      if !rest[|rest| - 1].Some? {
        LastValidCons(o, rest[..|rest| - 1], d);
      }
    }
  }

  lemma {:induction false} LastValidAppend(a: seq<Option<nat>>, b: seq<Option<nat>>, d: nat)
    ensures LastValid(a + b, d) == LastValid(b, LastValid(a, d))
    decreases |b|
  {
    if b == [] {
      assert a + b == a;
    } else {
      assert (a + b)[..|a + b| - 1] == a + b[..|b| - 1];
      LastValidAppend(a, b[..|b| - 1], d);
    }
  }

  /** Offers of a concatenation are the offers of its parts, unless the first
      part ends on a bare flag (which would consume the first argument of the second). */
  lemma {:induction false} OffersAppend(a: seq<string>, b: seq<string>, flag: string)
    requires !Dangling(a, flag)
    ensures Offers(a + b, flag) == Offers(a, flag) + Offers(b, flag)
    decreases |a|
  {
    if a == [] {
      assert a + b == b;
    } else if a[0] == flag {
      assert |a| >= 2;
      assert (a + b)[2..] == a[2..] + b;
      OffersAppend(a[2..], b, flag);
    } else {
      assert (a + b)[1..] == a[1..] + b;
      OffersAppend(a[1..], b, flag);
    }
  }

  /** Decimal text parses back to the number it prints, with or without `+`. */
  lemma {:induction false} DigitsOfNatText(n: nat)
    ensures AllDigits(NatText(n)) && DigitsValue(NatText(n)) == n
    decreases n
  {
    var t := NatText(n);
    if n >= 10 {
      DigitsOfNatText(n / 10);
      assert t[..|t| - 1] == NatText(n / 10);
    }
  }

  lemma ParseU16RoundTrip(n: nat)
    requires n <= U16_MAX
    ensures ParseU16(NatText(n)) == Some(n)
    ensures ParseU16("+" + NatText(n)) == Some(n)
  {
    DigitsOfNatText(n);
    assert ("+" + NatText(n))[1..] == NatText(n);
  }

  /** No argument mentions the flag: the default is kept. */
  lemma {:induction false} NoOccurrenceKeepsDefault(args: seq<string>, flag: string, d: nat)
    requires forall k :: 0 <= k < |args| ==> args[k] != flag && !StartsWith(args[k], flag + "=")
    ensures LastValid(Offers(args, flag), d) == d
    decreases |args|
  {
    if args != [] {
      NoOccurrenceKeepsDefault(args[1..], flag, d);
    }
  }

  /** A valid trailing occurrence wins in both spellings; an unparseable one
      leaves the port as it was. */
  lemma LastOccurrenceWins(args: seq<string>, flag: string, d: nat, n: nat, bad: string)
    requires !Dangling(args, flag) && n <= U16_MAX && ParseU16(bad).None?
    ensures LastValid(Offers(args + [flag, NatText(n)], flag), d) == n
    ensures LastValid(Offers(args + [flag + "=" + NatText(n)], flag), d) == n
    ensures LastValid(Offers(args + [flag + "=" + bad], flag), d) == LastValid(Offers(args, flag), d)
  {
    ParseU16RoundTrip(n);
    OffersAppend(args, [flag, NatText(n)], flag);
    assert [flag, NatText(n)][2..] == [];
    assert Offers([flag, NatText(n)], flag) == [Some(n)];
    LastValidAppend(Offers(args, flag), [Some(n)], d);

    var eq := flag + "=" + NatText(n);
    var eqs: seq<string> := [eq];
    OffersAppend(args, eqs, flag);
    assert eq[..|flag + "="|] == flag + "=";
    assert eq[|flag| + 1..] == NatText(n);
    assert Offers(eqs, flag) == [Some(n)] by {
      assert eq != flag by { assert |eq| > |flag|; }
      assert eqs[1..] == [];
    }
    LastValidAppend(Offers(args, flag), [Some(n)], d);

    var eb := flag + "=" + bad;
    var ebs: seq<string> := [eb];
    OffersAppend(args, ebs, flag);
    assert eb[..|flag + "="|] == flag + "=";
    assert eb[|flag| + 1..] == bad;
    assert Offers(ebs, flag) == [None] by {
      assert eb != flag by { assert |eb| > |flag|; }
      assert ebs[1..] == [];
    }
    LastValidAppend(Offers(args, flag), [None], d);
    var nones: seq<Option<nat>> := [None];
    assert nones[..0] == [];
  }

  /** A bare flag swallows the next argument even when it is itself the flag in
      its `flag=value` form, and a bare flag at the end does nothing. */
  lemma BareFlagConsumesNext(n: nat, d: nat)
    requires n <= U16_MAX
    ensures LastValid(Offers([BACKEND_PORT_FLAG, BACKEND_PORT_FLAG + "=" + NatText(n)], BACKEND_PORT_FLAG), d) == d
    ensures LastValid(Offers([BACKEND_PORT_FLAG], BACKEND_PORT_FLAG), d) == d
  {
    var v := BACKEND_PORT_FLAG + "=" + NatText(n);
    assert v[0] == '-';
    assert ParseU16(v).None? by {
      assert !IsDigit(v[0]);
    }
    var args := [BACKEND_PORT_FLAG, v];
    assert args[2..] == [];
    var nones: seq<Option<nat>> := [None];
    assert Offers(args, BACKEND_PORT_FLAG) == nones;
    assert nones[..0] == [];
  }
}
