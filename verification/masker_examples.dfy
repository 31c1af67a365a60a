/**
  Concrete runs of single rules on inputs from `DataMaskingTest`, and the
  input on which the `String.replace` rewrite leaves part of the selected
  value in clear.
 */
module MaskerExamples {
  import opened Options
  import opened Strings
  import opened Keys
  import opened Matching
  import opened Recognisers
  import opened DataMasker

  const SsnInput: string := "ssn=123-45-6789"

  /** `find()` reports one SSN, `123-45-6789`, at indices 4 to 15. */
  lemma SsnFound(t: string)
    requires t == SsnInput
    ensures FindSsns(t) == [Match(Span(4, 15), [Some(Span(4, 15))])]
  {
    assert t[0] == 's' && t[3] == '=';
    assert !Boundary(t, 1) && !Boundary(t, 2);
    assert !DigitsAt(t, 0, 3) && !DigitsAt(t, 3, 3);
    assert SsnEnd(t, 4) == Some(15) by {
      assert Boundary(t, 4) && DigitsAt(t, 4, 3);
      assert SkipSeparator(t, 7) == 8 && DigitsAt(t, 8, 2);
      assert SkipSeparator(t, 10) == 11 && DigitsAt(t, 11, 4);
      assert Boundary(t, 15);
    }
    EndsOfWithin(Shape.Ssn, t);
    assert Scan(EndsOf(Shape.Ssn, t), t, 15) == [];
  }

  lemma SsnText(t: string)
    requires t == SsnInput
    ensures t[..4] == "ssn=" && t[4..15] == "123-45-6789" && t[15..] == ""
    ensures MaskValue("123-45-6789") == "123-*******"
    ensures "ssn=" + "123-*******" + "" == "ssn=123-*******"
  {
  }

  /** The SSN rule masks `123-45-6789`, keeping `123-`, and files it as `masked_0`. */
  lemma SsnExample(t: string)
    requires t == SsnInput
    ensures var p := MaskPattern(AsWritten, t, FindSsns(t), 0, map[]);
      && p.text == "ssn=123-*******"
      && p.store == map["masked_0" := "123-45-6789"]
  {
    var m := Match(Span(4, 15), [Some(Span(4, 15))]);
    SsnFound(t);
    SsnText(t);
    MaskPatternOneMatch(AsWritten, t, m, 0, map[]);
    var v := t[4..15];
    ReplaceAllSelf(v, MaskValue(v));
    assert MaskedPiece(AsWritten, t, m, 0) == MaskValue(v);
    assert Key(0) == "masked_0";
  }

  const CardInput: string := "cc_number=4111-1111-1111-1111"

  lemma CardDigits(t: string)
    requires t == CardInput
    ensures |t| == 29
    ensures forall i | 0 <= i < 10 :: !IsDigit(t[i])
    ensures DigitsAt(t, 10, 4) && t[14] == '-' && DigitsAt(t, 15, 4) && t[19] == '-'
    ensures DigitsAt(t, 20, 4) && t[24] == '-' && DigitsAt(t, 25, 4)
  {
  }

  lemma CardSlices(t: string)
    requires t == CardInput
    ensures t[..10] == "cc_number=" && t[10..29] == "4111-1111-1111-1111" && t[29..] == ""
  {
  }

  lemma CardMasked(v: string)
    requires v == "4111-1111-1111-1111"
    ensures MaskValue(v) == "4111***************"
  {
  }

  lemma CardJoin(a: string, b: string)
    requires a == "cc_number=" && b == "4111***************"
    ensures a + b + "" == "cc_number=4111***************"
  {
  }

  /** `find()` reports one card number, `4111-1111-1111-1111`, at indices 10 to 29. */
  lemma CardFound(t: string)
    requires t == CardInput
    ensures FindCreditCards(t) == [Match(Span(10, 29), [Some(Span(10, 29))])]
  {
    CardDigits(t);
    var ends := EndsOf(Shape.CreditCard, t);
    EndsOfWithin(Shape.CreditCard, t);
    forall p | 0 <= p < 10
      ensures ends(p).None?
    {
      assert !IsDigit(t[p]);
    }
    ScanSkips(ends, t, 0, 10);
    assert CardEnd(t, 10) == Some(29);
    assert ends(10) == Some(29);
    assert Scan(ends, t, 29) == [];
  }

  /** The credit-card rule masks `4111-1111-1111-1111`, keeping `4111`. */
  lemma CreditCardExample(t: string)
    requires t == CardInput
    ensures MaskPattern(AsWritten, t, FindCreditCards(t), 0, map[]).text == "cc_number=4111***************"
  {
    var m := Match(Span(10, 29), [Some(Span(10, 29))]);
    CardFound(t);
    CardSlices(t);
    MaskPatternOneMatch(AsWritten, t, m, 0, map[]);
    var v := t[10..29];
    ReplaceAllSelf(v, MaskValue(v));
    assert MaskedPiece(AsWritten, t, m, 0) == MaskValue(v);
    CardMasked(v);
    CardJoin(t[..10], MaskValue(v));
  }

  const Keyword: string := "password="
  const Secret: string := "SuperSecretPassword123"
  const Trailer: string := "&username=john"
  const PasswordInput: string := Keyword + Secret + Trailer

  /** The match of the password pattern: keyword, separator, empty quote, value, empty quote. */
  function PasswordMatch(): Match {
    Match(Span(0, 31), [Some(Span(0, 31)), Some(Span(0, 8)), Some(Span(8, 9)),
                        Some(Span(9, 9)), Some(Span(9, 31)), Some(Span(31, 31))])
  }

  lemma PasswordLengths()
    ensures |Keyword| == 9 && |Secret| == 22 && |Trailer| == 14
  {
  }

  /** The slices of the input the password rule works on. */
  lemma PasswordText(t: string)
    requires t == PasswordInput
    ensures |t| == 45
    ensures t[..0] == [] && t[0..31] == Keyword + Secret && t[9..31] == Secret && t[31..] == Trailer
  {
    PasswordLengths();
    assert t[0..31] == (Keyword + Secret + Trailer)[..|Keyword + Secret|];
    assert t[9..31] == (Keyword + Secret)[|Keyword|..];
  }

  lemma PasswordMasked()
    ensures MaskValue(Secret) == "Supe******************"
  {
  }

  /** The value first occurs in the match text right after `password=`. */
  lemma PasswordFirstOccurrence()
    ensures OccursAt(Keyword + Secret, Secret, 9)
    ensures forall q | 0 <= q < 9 :: !OccursAt(Keyword + Secret, Secret, q)
    ensures (Keyword + Secret)[..9] == Keyword && (Keyword + Secret)[31..] == []
  {
    PasswordLengths();
    var text := Keyword + Secret;
    assert text[9..31] == Secret;
    forall q | 0 <= q < 9
      ensures !OccursAt(text, Secret, q)
    {
      assert text[q] == Keyword[q];
      assert Keyword[q] != Secret[0];
    }
  }

  lemma PasswordSelects(t: string)
    requires t == PasswordInput
    ensures WellFormedMatch(t, PasswordMatch(), 4)
    ensures MatchText(t, PasswordMatch()) == Keyword + Secret
    ensures Selected(t, PasswordMatch(), 4) == Some(Secret)
    ensures Masks(t, PasswordMatch(), 4)
  {
    PasswordText(t);
  }

  /** `String.replace` on the match text rewrites the value after `password=`. */
  lemma PasswordReplace()
    ensures ReplaceAll(Keyword + Secret, Secret, MaskValue(Secret)) == Keyword + MaskValue(Secret)
  {
    var text := Keyword + Secret;
    var u := MaskValue(Secret);
    PasswordFirstOccurrence();
    ReplaceAllAtFirstOccurrence(text, Secret, u, 9);
    assert ReplaceAll(text[31..], Secret, u) == [];
  }

  lemma PasswordPiece(t: string)
    requires t == PasswordInput
    ensures WellFormedMatch(t, PasswordMatch(), 4)
    ensures MaskedPiece(AsWritten, t, PasswordMatch(), 4) == Keyword + MaskValue(Secret)
  {
    PasswordSelects(t);
    PasswordReplace();
  }

  /**
    The password rule on `password=SuperSecretPassword123&username=john`:
    group 4 keeps `Supe` and stars the rest of the value, the rest of the
    text is copied, and the value is filed as `masked_0`.
   */
  lemma PasswordExample(t: string)
    requires t == PasswordInput
    ensures WellFormedMatches(t, [PasswordMatch()], 4)
    ensures var p := MaskPattern(AsWritten, t, [PasswordMatch()], 4, map[]);
      && p.text == Keyword + "Supe******************" + Trailer
      && p.store == map["masked_0" := Secret]
  {
    PasswordRuleText(t);
    PasswordRuleStore(t);
    PasswordMasked();
  }

  lemma PasswordMatches(t: string)
    requires t == PasswordInput
    ensures WellFormedMatches(t, [PasswordMatch()], 4)
  {
    PasswordSelects(t);
  }

  lemma PasswordRuleText(t: string)
    requires t == PasswordInput
    ensures WellFormedMatches(t, [PasswordMatch()], 4)
    ensures MaskPattern(AsWritten, t, [PasswordMatch()], 4, map[]).text == Keyword + MaskValue(Secret) + Trailer
  {
    PasswordMatches(t);
    PasswordPiece(t);
    PasswordText(t);
    MaskPatternOneMatch(AsWritten, t, PasswordMatch(), 4, map[]);
    var piece := Keyword + MaskValue(Secret);
    assert [] + piece == piece;
  }

  lemma PasswordRuleStore(t: string)
    requires t == PasswordInput
    ensures WellFormedMatches(t, [PasswordMatch()], 4)
    ensures MaskPattern(AsWritten, t, [PasswordMatch()], 4, map[]).store == map["masked_0" := Secret]
  {
    PasswordMatches(t);
    PasswordSelects(t);
    MaskPatternOneMatch(AsWritten, t, PasswordMatch(), 4, map[]);
    assert Key(0) == "masked_0";
  }

  /** The session-cookie match of `token=token=token`: group 3 is `token=token`. */
  function SessionMatch(): Match {
    Match(Span(0, 17), [Some(Span(0, 17)), Some(Span(0, 6)), Some(Span(0, 5)), Some(Span(6, 17))])
  }

  /**
    As written, `"token=token=token".replace("token=token", "toke*******")`
    rewrites the leftmost occurrence, which starts before the group: the
    group's last six characters `=token` stay in clear.
   */
  lemma AsWrittenLeavesGroupTail()
    ensures var t := "token=token=token";
      && WellFormedMatch(t, SessionMatch(), 3)
      && Selected(t, SessionMatch(), 3) == Some("token=token")
      && MaskedPiece(AsWritten, t, SessionMatch(), 3) == "toke*******=token"
      && MaskedPiece(AsWritten, t, SessionMatch(), 3)[6..17] == "*****=token"
  {
    var t := "token=token=token";
    var v := "token=token";
    assert t[6..17] == v && t[0..17] == t;
    assert MaskValue(v) == "toke*******";
    assert OccursAt(t, v, 0);
    ReplaceAllAtFirstOccurrence(t, v, MaskValue(v), 0);
    assert t[11..] == "=token";
    ReplaceAllWithoutOccurrence("=token", v, MaskValue(v));
  }

  /** In place, the same match keeps `toke` of the group and stars the rest of it. */
  lemma InPlaceMasksGroupTail()
    ensures var t := "token=token=token";
      MaskedPiece(InPlace, t, SessionMatch(), 3) == "token=toke*******"
  {
    var t := "token=token=token";
    assert t[6..17] == "token=token";
    assert MaskValue("token=token") == "toke*******";
  }
}
