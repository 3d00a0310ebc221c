/** Identifier formatting. Message ids are `"<prefix>:<counter>"`, actor ids
    are `"<ClassName>-<token>"`; the random uuid parts are parameters here. */
module Ids {

  predicate IsDigit(c: char)
  {
    '0' <= c <= '9'
  }

  function DigitChar(d: nat): (c: char)
    requires d < 10
    ensures IsDigit(c)
  {
    ('0' as int + d) as char
  }

  function DigitValue(c: char): (d: nat)
    requires IsDigit(c)
    ensures d < 10
  {
    c as int - '0' as int
  }

  /** Decimal rendering of a natural number, as Python's `%s` prints an int:
      no sign, no leading zeros. */
  function Decimal(n: nat): (s: string)
    ensures |s| >= 1
    ensures forall i :: 0 <= i < |s| ==> IsDigit(s[i])
    ensures n < 10 ==> |s| == 1
    ensures n >= 10 ==> s[0] != '0'
    decreases n
  {
    if n < 10 then [DigitChar(n)] else Decimal(n / 10) + [DigitChar(n % 10)]
  }

  /** The value of a string of decimal digits; the inverse of Decimal. */
  function ParseDecimal(s: string): (n: nat)
    requires forall i :: 0 <= i < |s| ==> IsDigit(s[i])
    ensures s == [] ==> n == 0
  {
    if s == [] then 0
    else ParseDecimal(s[..|s| - 1]) * 10 + DigitValue(s[|s| - 1])
  }

  lemma {:induction false} ParseDecimalOfDecimal(n: nat)
    ensures ParseDecimal(Decimal(n)) == n
    decreases n
  {
    var s := Decimal(n);
    if n >= 10 {
      ParseDecimalOfDecimal(n / 10);
      assert s[..|s| - 1] == Decimal(n / 10);
      assert s[|s| - 1] == DigitChar(n % 10);
    }
  }

  lemma DecimalInjective(a: nat, b: nat)
    ensures Decimal(a) == Decimal(b) ==> a == b
  {
    ParseDecimalOfDecimal(a);
    ParseDecimalOfDecimal(b);
  }

  /** `gen_message_id`: the hive's fixed prefix, a colon and the counter. */
  function MessageId(prefix: string, counter: nat): (id: string)
    ensures |id| > |prefix| + 1
    ensures id[..|prefix|] == prefix && id[|prefix|] == ':'
    ensures id[|prefix| + 1..] == Decimal(counter)
  {
    prefix + ":" + Decimal(counter)
  }

  /** Two ids drawn with the same prefix and different counter values differ. */
  lemma MessageIdInjective(prefix: string, a: nat, b: nat)
    ensures MessageId(prefix, a) == MessageId(prefix, b) <==> a == b
  {
    var ia, ib := MessageId(prefix, a), MessageId(prefix, b);
    assert ia[|prefix| + 1..] == Decimal(a);
    assert ib[|prefix| + 1..] == Decimal(b);
    DecimalInjective(a, b);
  }

  /** `gen_actor_id`: the actor class's name, a dash and a fresh token. */
  function ActorId(typeName: string, token: string): (id: string)
    ensures |id| == |typeName| + 1 + |token|
    ensures id[..|typeName|] == typeName && id[|typeName|] == '-'
    ensures id[|typeName| + 1..] == token
  {
    typeName + "-" + token
  }

  /** A class name is a Python identifier and so holds no dash: then an actor
      id determines both its class name and its token. */
  lemma ActorIdInjective(t1: string, u1: string, t2: string, u2: string)
    requires '-' !in t1 && '-' !in t2
    ensures ActorId(t1, u1) == ActorId(t2, u2) <==> t1 == t2 && u1 == u2
  {
    var a, b := ActorId(t1, u1), ActorId(t2, u2);
    if a == b {
      assert |t1| == |t2|;
      assert t1 == a[..|t1|] && t2 == b[..|t2|];
      assert u1 == a[|t1| + 1..] && u2 == b[|t2| + 1..];
    }
  }
}
