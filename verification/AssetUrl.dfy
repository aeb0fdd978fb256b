/** Signed, expiring asset links. HMAC (RFC 2104) is an abstract function of the
    secret and the message, assumed injective in the message. */
module AssetUrl {
  import opened Decimals
  import opened Forms

  type Hmac = (string, string) -> string

  ghost predicate Ideal(hmac: Hmac, secret: string) {
    && (forall a, b :: hmac(secret, a) == hmac(secret, b) ==> a == b)
    && (forall a :: hmac(secret, a) != "")
  }

  function Message(key: string, exp: nat): string { key + "\n" + Dec(exp) }

  function Sign(hmac: Hmac, secret: string, key: string, exp: nat): string { hmac(secret, Message(key, exp)) }

  /** `/^\d{1,15}$/`. */
  predicate ExpiryText(exp: string) { AllDigits(exp) && |exp| <= 15 }

  datatype Verdict = Verdict(valid: bool, expired: bool)

  function Verify(hmac: Hmac, secret: string, key: string, exp: Option<string>, sig: Option<string>, now: real): Verdict {
    if exp.None? || sig.None? || sig.value == "" || !ExpiryText(exp.value) then Verdict(false, false)
    else Verdict(sig.value == Sign(hmac, secret, key, Val(exp.value)), Val(exp.value) as real <= now)
  }

  lemma DigitsAfterKey(key: string, exp: nat, i: nat)
    requires |key| < i < |Message(key, exp)|
    ensures IsDigit(Message(key, exp)[i])
  {
    DecCanonical(exp);
    assert Message(key, exp)[i] == Dec(exp)[i - |key| - 1];
  }

  /** The signed message determines key and expiry, even for keys that contain
      newlines and digits: the last newline is the separator. */
  lemma MessageInjective(k: string, m: nat, k': string, n: nat)
    requires Message(k, m) == Message(k', n)
    ensures k == k' && m == n
  {
    var a := Message(k, m);
    assert a[|k|] == '\n' && Message(k', n)[|k'|] == '\n';
    if |k| < |k'| {
      DigitsAfterKey(k, m, |k'|);
    } else if |k'| < |k| {
      DigitsAfterKey(k', n, |k|);
    } else {
      assert k == a[..|k|] == k' && Dec(m) == a[|k| + 1..] == Dec(n);
      DecInjective(m, n);
    }
  }

  /** A signature issued for one key and expiry is valid for a request exactly when
      the request names that key and an expiry text denoting that number. */
  lemma ValidIffIssued(hmac: Hmac, secret: string, key: string, exp: string, key': string, exp': nat, now: real)
    requires Ideal(hmac, secret)
    ensures Verify(hmac, secret, key, Some(exp), Some(Sign(hmac, secret, key', exp')), now).valid
       <==> key == key' && ExpiryText(exp) && Val(exp) == exp'
  {
    if ExpiryText(exp) && Sign(hmac, secret, key, Val(exp)) == Sign(hmac, secret, key', exp') {
      MessageInjective(key, Val(exp), key', exp');
    }
  }

  /** What a request is answered, whatever it brings: it is valid exactly when it has an
      expiry of 1 to 15 digits and the signature of the key and that number, and expired
      exactly when that number has passed; nothing else is either. */
  lemma VerdictExact(hmac: Hmac, secret: string, key: string, exp: Option<string>, sig: Option<string>, now: real)
    requires Ideal(hmac, secret)
    ensures var v := Verify(hmac, secret, key, exp, sig, now);
      var read := exp.Some? && 1 <= |exp.value| <= 15 && AllDigits(exp.value) && sig.Some? && sig.value != "";
      && (v.valid <==> read && sig.value == hmac(secret, key + "\n" + Dec(Val(exp.value))))
      && (v.expired <==> read && Val(exp.value) as real <= now)
  {
  }

  /** Every accepted expiry is below 2^53, so converting it to a double is exact. */
  lemma ExpiryIsExact(exp: string)
    requires ExpiryText(exp)
    ensures Val(exp) < 9007199254740992
  {
    ValBound(exp);
    Pow10Monotone(|exp|, 15);
    assert Pow10(5) == 100000;
    assert Pow10(10) == 100000 * Pow10(5);
    assert Pow10(15) == 100000 * Pow10(10);
  }

  lemma {:induction false} LeadingZero(exp: string)
    requires AllDigits(exp)
    ensures AllDigits("0" + exp) && Val("0" + exp) == Val(exp)
  {
    var z := "0" + exp;
    assert z[..|z| - 1] == "0" + exp[..|exp| - 1];
    if |exp| > 1 { LeadingZero(exp[..|exp| - 1]); }
  }

  /** Leading zeros denote the same expiry: the verdict is the same. */
  lemma LeadingZeroSameVerdict(hmac: Hmac, secret: string, key: string, exp: string, sig: Option<string>, now: real)
    requires ExpiryText(exp) && |exp| < 15
    ensures Verify(hmac, secret, key, Some("0" + exp), sig, now) == Verify(hmac, secret, key, Some(exp), sig, now)
  {
    LeadingZero(exp);
  }

  /** Once expired, a link stays expired, and its signature verdict never changes. */
  lemma ExpiryIsFinal(hmac: Hmac, secret: string, key: string, exp: Option<string>, sig: Option<string>, now: real, later: real)
    requires now <= later
    ensures Verify(hmac, secret, key, exp, sig, now).expired ==> Verify(hmac, secret, key, exp, sig, later).expired
    ensures Verify(hmac, secret, key, exp, sig, now).valid == Verify(hmac, secret, key, exp, sig, later).valid
  {
  }

  /** An issued link works, for the key it was issued for, strictly before its
      expiry and never from then on; expiries of more than 15 digits never work. */
  lemma IssuedLinkWorksUntilExpiry(hmac: Hmac, secret: string, key: string, exp: nat, now: real)
    requires Ideal(hmac, secret)
    ensures var v := Verify(hmac, secret, key, Some(Dec(exp)), Some(Sign(hmac, secret, key, exp)), now);
      v.valid && !v.expired <==> |Dec(exp)| <= 15 && now < exp as real
  {
    DecCanonical(exp);
  }
}
