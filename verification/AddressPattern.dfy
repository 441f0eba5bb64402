/** Which strings the address pattern of entity IDs matches, and how it takes them apart. */
module AddressPattern {
  import opened Wrappers
  import opened EntityIds

  /** Digits without a leading zero. */
  predicate Numeral(s: string)
  {
    AllDigits(s) && s != "" && (s[0] == '0' ==> |s| == 1)
  }

  predicate Groups(m: AddressMatch)
  {
    && Numeral(m.shard) && Numeral(m.realm) && Numeral(m.num)
    && (m.suffix == "" || (|m.suffix| == 5 && forall i :: 0 <= i < 5 ==> 'a' <= m.suffix[i] <= 'z'))
  }

  function Dashed(suffix: string): string
  {
    if suffix == "" then "" else "-" + suffix
  }

  /** The text the groups come from. */
  function Written(m: AddressMatch): string
  {
    m.shard + ("." + (m.realm + ("." + (m.num + Dashed(m.suffix)))))
  }

  lemma ComponentOfNumeral(a: string, rest: string)
    requires Numeral(a) && (rest == "" || !IsDigit(rest[0]))
    ensures Component(a + rest) == |a|
  {
    assert (a + rest)[0] == a[0];
    DigitRunOfDigits(a, rest);
  }

  lemma DottedNumeral(a: string, rest: string)
    requires Numeral(a)
    ensures DottedComponent(a + ("." + rest)) == Some(Parts(a, rest))
  {
    ComponentOfNumeral(a, "." + rest);
    Pieces(a + ("." + rest), a, '.', rest);
  }

  lemma LastNumeral(a: string, suffix: string)
    requires Numeral(a) && (suffix == "" || IsSuffix("-" + suffix))
    ensures LastComponent(a + Dashed(suffix)) == Some(Parts(a, suffix))
  {
    ComponentOfNumeral(a, Dashed(suffix));
    var s := a + Dashed(suffix);
    if suffix == "" {
      assert s == a;
    } else {
      assert s == a + (['-'] + suffix) && Dashed(suffix) == ['-'] + suffix;
      Pieces(s, a, '-', suffix);
      assert s[|a|..] == Dashed(suffix);
    }
  }

  lemma ComponentIsNumeral(s: string)
    requires Component(s) > 0
    ensures Numeral(s[..Component(s)])
  {
  }

  lemma DottedShape(s: string)
    requires DottedComponent(s).Some?
    ensures var p := DottedComponent(s).value; Numeral(p.head) && s == p.head + ("." + p.tail)
  {
    ComponentIsNumeral(s);
    hide Component, Numeral;
  }

  lemma LastShape(s: string)
    requires LastComponent(s).Some?
    ensures var p := LastComponent(s).value;
            Numeral(p.head) && (p.tail == "" || IsSuffix("-" + p.tail)) && s == p.head + Dashed(p.tail)
  {
    ComponentIsNumeral(s);
    var n := Component(s);
    hide Component, Numeral;
    if n < |s| {
      assert s[n..] == "-" + s[n + 1..];
    }
  }

  lemma SuffixLetters(suffix: string)
    ensures suffix == "" || IsSuffix("-" + suffix) <==>
            suffix == "" || (|suffix| == 5 && forall i :: 0 <= i < 5 ==> 'a' <= suffix[i] <= 'z')
  {
    var s := "-" + suffix;
    assert forall i :: 0 <= i < |suffix| ==> s[i + 1] == suffix[i];
    assert IsSuffix(s) ==> forall i :: 0 <= i < 5 ==> suffix[i] == s[i + 1];
  }

  /** At the start of a string the pattern matches exactly three numerals with dots between them and
      nothing behind, or a dash and five letters; those are its groups. */
  lemma MatchExactly(s: string, m: AddressMatch)
    ensures MatchHere(s) == Some(m) <==> Groups(m) && s == Written(m)
  {
    hide DottedComponent, LastComponent, Numeral, IsSuffix;
    SuffixLetters(m.suffix);
    if Groups(m) && s == Written(m) {
      DottedNumeral(m.shard, m.realm + ("." + (m.num + Dashed(m.suffix))));
      DottedNumeral(m.realm, m.num + Dashed(m.suffix));
      LastNumeral(m.num, m.suffix);
    }
    if MatchHere(s) == Some(m) {
      DottedShape(s);
      var rest := DottedComponent(s).value.tail;
      DottedShape(rest);
      LastShape(DottedComponent(rest).value.tail);
    }
  }

  /** Place `i` matches, and none before it. */
  predicate Leftmost(s: string, i: nat, m: AddressMatch)
  {
    i <= |s| && MatchHere(s[i..]) == Some(m) && forall j :: 0 <= j < i ==> MatchHere(s[j..]).None?
  }

  lemma LeftmostMoves(s: string, i: nat, m: AddressMatch)
    requires s != "" && MatchHere(s).None?
    ensures Leftmost(s, i + 1, m) <==> Leftmost(s[1..], i, m)
  {
    hide MatchHere;
    assert s[0..] == s;
    assert forall j :: 0 <= j < |s| ==> s[1..][j..] == s[j + 1..];
    if Leftmost(s[1..], i, m) {
      forall j | 0 <= j < i + 1 ensures MatchHere(s[j..]).None? {
        if j > 0 {
          assert s[1..][j - 1..] == s[j..];
        }
      }
    }
  }

  /** The leftmost place that matches is taken. */
  lemma {:induction false} FindLeftmost(s: string, m: AddressMatch)
    ensures FindMatch(s) == Some(m) <==> exists i :: Leftmost(s, i, m)
  {
    hide MatchHere, Leftmost;
    LeftmostNow(s, m);
    if MatchHere(s).None? && s != "" {
      FindLeftmost(s[1..], m);
      if i: nat :| Leftmost(s[1..], i, m) {
        LeftmostMoves(s, i, m);
      }
      if i: nat :| Leftmost(s, i, m) {
        LeftmostMoves(s, i - 1, m);
      }
    }
  }

  lemma LeftmostNow(s: string, m: AddressMatch)
    ensures Leftmost(s, 0, m) <==> MatchHere(s) == Some(m)
    ensures MatchHere(s).Some? || s == "" ==> forall i: nat :: i > 0 ==> !Leftmost(s, i, m)
  {
    hide MatchHere;
    assert s[0..] == s;
  }

  // ---------------------------------------------------------------- the other parser

  function Behind(checksum: Option<string>): string
  {
    match checksum
    case None => ""
    case Some(letters) => "-" + letters
  }

  /** Three numbers with dots between them, and whatever follows the first dash. */
  predicate Spelt(s: string, a: string, b: string, c: string, p: IdParts)
  {
    && Atoi(a) == Some(p.shard) && Atoi(b) == Some(p.realm) && Atoi(c) == Some(p.num)
    && '.' !in a && '.' !in b && '-' !in a && '-' !in b && '-' !in c
    && s == a + ("." + (b + ("." + c))) + Behind(p.checksum)
  }

  /** `_IdFromString` reads exactly these. */
  lemma ParsedExactly(s: string, p: IdParts)
    ensures IdFromString(s) == Ok(p) <==> exists a, b, c :: Spelt(s, a, b, c, p)
  {
    hide Atoi;
    if IdFromString(s) == Ok(p) {
      var a, b, c := ReadFrom(s, p);
    }
    if a, b, c :| Spelt(s, a, b, c, p) {
      SpeltIsRead(s, a, b, c, p);
    }
  }

  lemma ReadFrom(s: string, p: IdParts) returns (a: string, b: string, c: string)
    requires IdFromString(s) == Ok(p)
    ensures Spelt(s, a, b, c, p)
  {
    hide Atoi, Cut, SplitNumbers;
    FirstCut(s, '-');
    var cut := Cut(s, '-');
    if cut.None? {
      a, b, c := BodyRead(s, None, p);
      assert s + "" == s;
    } else {
      a, b, c := BodyRead(cut.value.head, Some(cut.value.tail), p);
    }
    PartsInside(a, b, c, '-');
  }

  lemma BodyRead(body: string, checksum: Option<string>, p: IdParts) returns (a: string, b: string, c: string)
    requires SplitNumbers(body, checksum) == Ok(p)
    ensures p.checksum == checksum
    ensures body == a + ("." + (b + ("." + c))) && '.' !in a && '.' !in b
    ensures Atoi(a) == Some(p.shard) && Atoi(b) == Some(p.realm) && Atoi(c) == Some(p.num)
  {
    hide Atoi, Cut;
    FirstCut(body, '.');
    var rest := Cut(body, '.').value.tail;
    FirstCut(rest, '.');
    a, b, c := Cut(body, '.').value.head, Cut(rest, '.').value.head, Cut(rest, '.').value.tail;
  }

  lemma PartsInside(a: string, b: string, c: string, x: char)
    requires x !in a + ("." + (b + ("." + c)))
    ensures x !in a && x !in b && x !in c
  {
    var rest := b + ("." + c);
    InConcat(a, "." + rest, x);
    InConcat(".", rest, x);
    InConcat(b, "." + c, x);
    InConcat(".", c, x);
  }

  lemma InConcat(a: string, b: string, x: char)
    ensures x in a + b <==> x in a || x in b
  {
  }

  lemma FirstCut(s: string, c: char)
    ensures Cut(s, c).None? <==> c !in s
    ensures Cut(s, c).Some? ==> c !in Cut(s, c).value.head && s == Cut(s, c).value.head + ([c] + Cut(s, c).value.tail)
  {
    if Cut(s, c).Some? {
      assert s[|Cut(s, c).value.head|] == c;
    }
  }

  lemma SpeltIsRead(s: string, a: string, b: string, c: string, p: IdParts)
    requires Spelt(s, a, b, c, p)
    ensures IdFromString(s) == Ok(p)
  {
    hide Atoi, Cut, SplitNumbers;
    var body := a + ("." + (b + ("." + c)));
    NotInBody(a, b, c, '-');
    BodyIsRead(a, b, c, p);
    FirstCut(s, '-');
    if p.checksum.None? {
      assert s == body;
    } else {
      CutAt(s, '-', body, p.checksum.value);
    }
  }

  lemma NotInBody(a: string, b: string, c: string, x: char)
    requires x !in a && x !in b && x !in c && x != '.'
    ensures x !in a + ("." + (b + ("." + c)))
  {
  }

  lemma BodyIsRead(a: string, b: string, c: string, p: IdParts)
    requires '.' !in a && '.' !in b
    requires Atoi(a) == Some(p.shard) && Atoi(b) == Some(p.realm) && Atoi(c) == Some(p.num)
    ensures SplitNumbers(a + ("." + (b + ("." + c))), p.checksum) == Ok(p)
  {
    hide Atoi, Cut;
    var rest := b + ("." + c);
    CutAt(a + ("." + rest), '.', a, rest);
    CutAt(rest, '.', b, c);
  }
}
