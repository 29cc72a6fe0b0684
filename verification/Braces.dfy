/** Brace matching in query text. */
module Braces {
  import opened Basics

  /** The nesting depth after s, from depth d; None when a brace closes below depth one. */
  ghost function Scan(s: string, d: nat): Option<nat>
    requires d > 0
  {
    if s == "" then Some(d)
    else if s[0] == '{' then Scan(s[1..], d + 1)
    else if s[0] == '}' then (if d == 1 then None else Scan(s[1..], d - 1))
    else Scan(s[1..], d)
  }

  ghost predicate Balanced(s: string) {
    Scan(s, 1) == Some(1)
  }

  lemma {:induction false} ScanOfConcat(s: string, t: string, d: nat)
    requires d > 0
    ensures Scan(s, d) == None ==> Scan(s + t, d) == None
    ensures Scan(s, d).Some? ==> Scan(s, d).value > 0 && Scan(s + t, d) == Scan(t, Scan(s, d).value)
  {
    if s == "" {
      assert s + t == t;
    } else {
      assert (s + t)[1..] == s[1..] + t;
      if s[0] == '{' {
        ScanOfConcat(s[1..], t, d + 1);
      } else if s[0] != '}' {
        ScanOfConcat(s[1..], t, d);
      } else if d > 1 {
        ScanOfConcat(s[1..], t, d - 1);
      }
    }
  }

  /** What succeeds from one depth succeeds from a greater one. */
  lemma {:induction false} ScanDeeper(s: string, d: nat, k: nat)
    requires d > 0 && Scan(s, d).Some?
    ensures Scan(s, d + k) == Some(Scan(s, d).value + k)
  {
    if s != "" {
      ScanDeeper(s[1..], if s[0] == '{' then d + 1 else if s[0] == '}' then d - 1 else d, k);
    }
  }

  lemma {:induction false} ScanPlain(s: string, d: nat)
    requires d > 0 && '{' !in s && '}' !in s
    ensures Scan(s, d) == Some(d)
  {
    if s != "" {
      ScanPlain(s[1..], d);
    }
  }

  lemma BalancedFrom(s: string, d: nat)
    requires d > 0 && Balanced(s)
    ensures Scan(s, d) == Some(d)
  {
    ScanDeeper(s, 1, d - 1);
  }

  lemma BalancedConcat(s: string, t: string)
    requires Balanced(s)
    ensures Balanced(s + t) <==> Balanced(t)
  {
    ScanOfConcat(s, t, 1);
  }

  lemma BalancedPlain(s: string)
    requires '{' !in s && '}' !in s
    ensures Balanced(s)
  {
    ScanPlain(s, 1);
  }

  lemma BalancedBraces(s: string)
    requires Balanced(s)
    ensures Balanced("{" + s + "}")
  {
    BalancedFrom(s, 2);
    ScanOfConcat(s, "}", 2);
    assert ("{" + s + "}")[1..] == s + "}";
    assert "}"[1..] == "";
  }

  /** Cutting a balanced piece out of a balanced text, and leaving a plain one, keeps it balanced. */
  lemma CutBalanced(a: string, m: string, b: string, plain: string)
    requires Balanced(a + m + b) && Balanced(m) && Balanced(plain)
    ensures Balanced(a + plain + b)
  {
    ScanOfConcat(a + m, b, 1);
    ScanOfConcat(a, m, 1);
    ScanOfConcat(a + plain, b, 1);
    ScanOfConcat(a, plain, 1);
    var d := Scan(a, 1).value;
    BalancedFrom(m, d);
    BalancedFrom(plain, d);
  }

  // ---------- the matching brace ----------

  /** The index of the brace that takes the depth from d to zero. */
  function Close(s: string, d: nat): (r: Option<nat>)
    requires d > 0
    ensures r.Some? ==> r.value < |s| && s[r.value] == '}'
  {
    if s == "" then None
    else if s[0] == '}' && d == 1 then Some(0)
    else
      match Close(s[1..], if s[0] == '{' then d + 1 else if s[0] == '}' then d - 1 else d)
      case None => None
      case Some(i) => Some(i + 1)
  }

  /** It is found exactly after a prefix that scans from d back to one. */
  lemma {:induction false} CloseIsAfterScan(s: string, d: nat, c: nat)
    requires d > 0
    ensures Close(s, d) == Some(c) <==> c < |s| && s[c] == '}' && Scan(s[..c], d) == Some(1)
  {
    if s != "" {
      var d1 := if s[0] == '{' then d + 1 else if s[0] == '}' then d - 1 else d;
      if c == 0 {
        assert s[..0] == "";
      } else {
        if c < |s| { assert s[..c][1..] == s[1..][..c - 1]; }
        if d1 > 0 { CloseIsAfterScan(s[1..], d1, c - 1); }
      }
    }
  }
}
