/**
 * Which texts the two token checks accept, said of the JSON object a text carries: by its own
 * fields, in any order, with whatever else it holds.
 */
module TokensExactly {
  import opened GoTime
  import opened Bytes
  import opened Wrappers
  import opened ReturnPath
  import opened SignedValue
  import opened Tokens

  /** The last field of this name holds the value. */
  ghost predicate Holds(json: Json, name: string, value: Scalar) {
    exists i :: 0 <= i < |json| && json[i] == Field(name, value) && forall k :: i < k < |json| ==> json[k].name != name
  }

  ghost predicate Lacks(json: Json, name: string) {
    forall i :: 0 <= i < |json| ==> json[i].name != name
  }

  /** A missing number reads as 0, and a missing text as empty; a value of the other kind does not read. */
  ghost predicate HoldsNumber(json: Json, name: string, n: int) {
    Holds(json, name, Number(n)) || (Lacks(json, name) && n == 0)
  }

  ghost predicate HoldsText(json: Json, name: string, text: Bytes) {
    Holds(json, name, Text(text)) || (Lacks(json, name) && text == [])
  }

  lemma {:induction false} LookupExactly(json: Json, name: string, value: Scalar)
    ensures Lookup(json, name) == Some(value) <==> Holds(json, name, value)
    ensures Lookup(json, name) == None <==> Lacks(json, name)
  {
    if json != [] {
      var front, last := json[..|json| - 1], json[|json| - 1];
      assert json == front + [last];
      LookupExactly(front, name, value);
      if last.name != name {
        LastElsewhere(front, last, name, value);
      } else {
        LastHere(front, last, name, value);
      }
    }
  }

  lemma LastElsewhere(front: Json, last: Field, name: string, value: Scalar)
    requires last.name != name
    ensures Holds(front + [last], name, value) <==> Holds(front, name, value)
    ensures Lacks(front + [last], name) <==> Lacks(front, name)
  {
    var json := front + [last];
    if Holds(front, name, value) {
      var i :| 0 <= i < |front| && front[i] == Field(name, value)
               && forall k :: i < k < |front| ==> front[k].name != name;
      assert json[i] == Field(name, value);
    }
    if Holds(json, name, value) {
      var i :| 0 <= i < |json| && json[i] == Field(name, value) && forall k :: i < k < |json| ==> json[k].name != name;
      assert front[i] == Field(name, value);
      assert forall k :: i < k < |front| ==> front[k] == json[k];
    }
    assert forall i :: 0 <= i < |front| ==> json[i] == front[i];
  }

  lemma LastHere(front: Json, last: Field, name: string, value: Scalar)
    requires last.name == name
    ensures Holds(front + [last], name, value) <==> last.value == value
    ensures !Lacks(front + [last], name)
  {
    var json := front + [last];
    assert json[|front|] == last;
  }

  lemma FieldsExactly(json: Json, name: string, n: int, text: Bytes)
    ensures NumberField(json, name) == Some(n) <==> HoldsNumber(json, name, n)
    ensures TextField(json, name) == Some(text) <==> HoldsText(json, name, text)
  {
    hide Lookup, Holds, Lacks;
    LookupExactly(json, name, Number(n));
    LookupExactly(json, name, Text(text));
  }

  lemma StateReadExactly(json: Json, claims: ReturnStateClaims)
    ensures StateFromJson(json) == Some(claims) <==>
            && HoldsNumber(json, "v", claims.version) && HoldsText(json, "return_to", claims.returnPath)
            && HoldsNumber(json, "exp", claims.expiresAt)
  {
    hide NumberField, TextField, HoldsNumber, HoldsText;
    FieldsExactly(json, "v", claims.version, []);
    FieldsExactly(json, "return_to", 0, claims.returnPath);
    FieldsExactly(json, "exp", claims.expiresAt, []);
  }

  lemma CookieReadExactly(json: Json, claims: AllowCookieClaims)
    ensures CookieFromJson(json) == Some(claims) <==>
            && HoldsNumber(json, "v", claims.version) && HoldsNumber(json, "iat", claims.issuedAt)
            && HoldsNumber(json, "exp", claims.expiresAt)
  {
    hide NumberField, HoldsNumber;
    FieldsExactly(json, "v", claims.version, []);
    FieldsExactly(json, "iat", claims.issuedAt, []);
    FieldsExactly(json, "exp", claims.expiresAt, []);
  }

  /** The object says version 1, an expiry after this second, and a path that is not cleaned away. */
  ghost predicate GoodState(json: Json, path: Bytes, now: int) {
    && HoldsNumber(json, "v", 1) && HoldsText(json, "return_to", path)
    && (exists exp: int :: HoldsNumber(json, "exp", exp) && exp > Unix(now))
    && path != [] && (SafeReturnPathFrom(path) == ['/' as int] ==> path == ['/' as int])
  }

  /** A return state is accepted, with this path, exactly if it verifies under its key and its object is good. */
  lemma StateAcceptedExactly(cfg: Config, raw: string, path: Bytes, now: int)
    ensures var result := VerifyReturnState(cfg, raw, now);
            (result.Success? && result.value.returnPath == path) <==>
            && VerifySignedValue(cfg.pr, raw, cfg.returnStateMACKey).Success?
            && GoodState(VerifySignedValue(cfg.pr, raw, cfg.returnStateMACKey).value, path, now)
  {
    hide VerifySignedValue, StateFromJson, HoldsNumber, HoldsText, SafeReturnPathFrom;
    var verified := VerifySignedValue(cfg.pr, raw, cfg.returnStateMACKey);
    if verified.Success? {
      if StateFromJson(verified.value).Some? {
        StateReadExactly(verified.value, StateFromJson(verified.value).value);
        SameNumber(verified.value, "v", 1, StateFromJson(verified.value).value.version);
        SameText(verified.value, "return_to", path, StateFromJson(verified.value).value.returnPath);
        forall exp: int | HoldsNumber(verified.value, "exp", exp)
          ensures exp == StateFromJson(verified.value).value.expiresAt
        {
          SameNumber(verified.value, "exp", exp, StateFromJson(verified.value).value.expiresAt);
        }
      }
      if GoodState(verified.value, path, now) {
        var exp: int :| HoldsNumber(verified.value, "exp", exp) && exp > Unix(now);
        StateReadExactly(verified.value, ReturnStateClaims(1, path, exp));
      }
    }
  }

  /** A name reads as one number, and as one text. */
  lemma SameNumber(json: Json, name: string, a: int, b: int)
    requires HoldsNumber(json, name, b)
    ensures HoldsNumber(json, name, a) <==> a == b
  {
    hide HoldsNumber;
    FieldsExactly(json, name, a, []);
    FieldsExactly(json, name, b, []);
  }

  lemma SameText(json: Json, name: string, a: Bytes, b: Bytes)
    requires HoldsText(json, name, b)
    ensures HoldsText(json, name, a) <==> a == b
  {
    hide HoldsText;
    FieldsExactly(json, name, 0, a);
    FieldsExactly(json, name, 0, b);
  }

  /** The object says version 1 and a time of issue and an expiry around this second. */
  ghost predicate GoodCookie(json: Json, now: int) {
    && HoldsNumber(json, "v", 1)
    && (exists iat: int :: HoldsNumber(json, "iat", iat) && iat <= Unix(now))
    && (exists exp: int :: HoldsNumber(json, "exp", exp) && exp > Unix(now))
  }

  /** A cookie is honoured exactly if there is one, it verifies under its key and its object is good. */
  lemma CookieHonouredExactly(cfg: Config, cookie: Option<string>, now: int)
    ensures HasValidAllowCookie(cfg, cookie, now) <==>
            && cookie.Some? && VerifySignedValue(cfg.pr, cookie.value, cfg.cookieMACKey).Success?
            && GoodCookie(VerifySignedValue(cfg.pr, cookie.value, cfg.cookieMACKey).value, now)
  {
    hide VerifySignedValue, CookieFromJson, HoldsNumber;
    if cookie.Some? && VerifySignedValue(cfg.pr, cookie.value, cfg.cookieMACKey).Success? {
      var json := VerifySignedValue(cfg.pr, cookie.value, cfg.cookieMACKey).value;
      if CookieFromJson(json).Some? {
        var claims := CookieFromJson(json).value;
        CookieReadExactly(json, claims);
        SameNumber(json, "v", 1, claims.version);
        forall n: int
          ensures HoldsNumber(json, "iat", n) <==> n == claims.issuedAt
          ensures HoldsNumber(json, "exp", n) <==> n == claims.expiresAt
        {
          SameNumber(json, "iat", n, claims.issuedAt);
          SameNumber(json, "exp", n, claims.expiresAt);
        }
      }
      if GoodCookie(json, now) {
        var iat: int :| HoldsNumber(json, "iat", iat) && iat <= Unix(now);
        var exp: int :| HoldsNumber(json, "exp", exp) && exp > Unix(now);
        CookieReadExactly(json, AllowCookieClaims(1, iat, exp));
      }
    }
  }
}
