/** What the parser reads: the tokens of the lexer (lib/lex.c), and numbers as
  * bit strings. */
module Tokens {
  import opened Bits
  import opened Expressions

  datatype Notation = Decimal | Hexadecimal | Ipv4 | Ipv6 | Ethernet

  /** The end of the input is the end of the token sequence. */
  datatype Token =
    | Id(name: string)
    | LitStr(s: string)
    | Int(n: nat, format: Notation)
    | MaskedInt(n: nat, mask: nat, format: Notation)
    | Macro(name: string)
    | PortGroup(name: string)
    | Rel(relop: Relop)
    | Logic(op: Op)
    | LogNot
    | LParen | RParen | LSquare | RSquare | LCurly | RCurly
    | Ellipsis | Comma | Equals
    | OtherToken

  /** The 1-bits of a number. */
  function BitsOf(n: nat): (r: Bits) {
    if n == 0 then {} else (if n % 2 == 1 then {0} else {}) + ShiftBits(BitsOf(n / 2), 1)
  }

  lemma {:induction false} NumberTrim(a: Bits, b: Bits, w: nat)
    requires forall i :: 0 <= i < w ==> (i in a <==> i in b)
    ensures Number(a, w) == Number(b, w)
  {
    if w > 0 {
      NumberTrim(a, b, w - 1);
    }
  }

  /** A number by its lowest bit and the rest. */
  lemma {:induction false} NumberLow(b: Bits, w: nat)
    requires w > 0
    ensures Number(b, w) == (if 0 in b then 1 else 0) + 2 * Number(Extract(b, 1, w - 1), w - 1)
  {
    if w > 1 {
      NumberLow(b, w - 1);
      NumberTrim(Extract(b, 1, w - 1), Extract(b, 1, w - 2), w - 2);
    }
  }

  /** The bits of the number that bits denote. */
  lemma {:induction false} BitsOfNumber(b: Bits, w: nat)
    requires b <= Range(0, w)
    ensures BitsOf(Number(b, w)) == b
    decreases w
  {
    if w == 0 {
      assert b == {};
    } else {
      var down := Extract(b, 1, w - 1);
      NumberLow(b, w);
      BitsOfNumber(down, w - 1);
      var n := Number(b, w);
      assert n / 2 == Number(down, w - 1) && n % 2 == if 0 in b then 1 else 0;
      forall i: nat ensures i in BitsOf(n) <==> i in b {
        if n == 0 {
          assert BitsOf(Number(down, w - 1)) == {};
        }
        if i > 0 {
          assert i - 1 in down <==> i in b;
        }
      }
    }
  }
}
