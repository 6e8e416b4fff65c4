/** backend-flask/utils/phone_utils.py: rewriting phone numbers into E.164
    form and into the digit-only ids WhatsApp uses. The `phonenumbers` chain
    `parse` / `is_valid_number` / `format_number(..., E164)` is the parameter
    `lib`: it maps the cleaned text and the default region to the number's
    E.164 digits (country code, then national number) as a natural number, or
    to `None` when the text does not parse or is not a valid number. The
    E.164 text is then "+" followed by those digits. */
module Phone {
  import opened Py

  type Library = (string, string) -> Option<nat>

  predicate IsSeparator(c: char) { c == ' ' || c == '-' || c == '(' || c == ')' }

  /** `re.sub(r"[ \-\(\)]", "", s)`. */
  function DropSeparators(s: string): (r: string)
    ensures |r| <= |s|
    ensures forall c :: c in r <==> c in s && !IsSeparator(c)
  {
    if s == [] then []
    else
      assert s == [s[0]] + s[1..];
      (if IsSeparator(s[0]) then [] else [s[0]]) + DropSeparators(s[1..])
  }

  /** `re.sub(r"\D", "", s)`, with `\d` read as the ASCII digits. */
  function KeepDigits(s: string): (r: string)
    ensures |r| <= |s| && AllDigits(r)
    ensures forall c :: c in r <==> c in s && IsDigit(c)
  {
    if s == [] then []
    else
      assert s == [s[0]] + s[1..];
      (if IsDigit(s[0]) then [s[0]] else []) + KeepDigits(s[1..])
  }

  /** The separator filter works character by character: it distributes
      over concatenation and keeps or drops each character on its own. */
  lemma {:induction false} DropSeparatorsAppend(a: string, b: string)
    ensures DropSeparators(a + b) == DropSeparators(a) + DropSeparators(b)
  {
    if a == [] {
      assert a + b == b;
    } else {
      assert (a + b)[0] == a[0] && (a + b)[1..] == a[1..] + b;
      DropSeparatorsAppend(a[1..], b);
    }
  }

  lemma DropSeparatorsOne(c: char)
    ensures DropSeparators([c]) == if IsSeparator(c) then [] else [c]
  {
    assert [c][1..] == [];
  }

  /** The digit filter distributes over concatenation and keeps or drops
      each character on its own. */
  lemma {:induction false} KeepDigitsAppend(a: string, b: string)
    ensures KeepDigits(a + b) == KeepDigits(a) + KeepDigits(b)
  {
    if a == [] {
      assert a + b == b;
    } else {
      assert (a + b)[0] == a[0] && (a + b)[1..] == a[1..] + b;
      KeepDigitsAppend(a[1..], b);
    }
  }

  lemma KeepDigitsOne(c: char)
    ensures KeepDigits([c]) == if IsDigit(c) then [c] else []
  {
    assert [c][1..] == [];
  }

  /** The text `to_e164` hands to the parser: stripped, "whatsapp:" removed,
      then spaces, hyphens and parentheses removed. */
  function Clean(number: string): (r: string)
    ensures |r| <= |number|
    ensures forall c :: c in r ==> !IsSeparator(c)
  {
    DropSeparators(RemoveAll(Strip(number), "whatsapp:"))
  }

  /** Cleaning removes the whitespace around the number; of the rest it
      drops only the separators, keeping every other character in order. */
  lemma CleanPlain(a: string, x: string, b: string)
    requires AllSpace(a) && AllSpace(b) && Absent(x, "whatsapp:")
    requires x == [] || (!IsSpace(x[0]) && !IsSpace(x[|x| - 1]))
    ensures Clean(a + x + b) == DropSeparators(x)
  {
    StripAround(a, x, b);
    RemoveAllAbsent(x, "whatsapp:");
  }

  /** Stripping, then removing a pattern `p` that heads the stripped text
      and occurs nowhere after it, leaves the rest. */
  lemma StripRemovePrefix(a: string, p: string, x: string, b: string)
    requires AllSpace(a) && AllSpace(b) && p != [] && Absent(x, p)
    requires !IsSpace(p[0]) && !IsSpace(p[|p| - 1])
    requires x == [] || !IsSpace(x[|x| - 1])
    ensures RemoveAll(Strip(a + (p + x) + b), p) == x
  {
    var y := p + x;
    assert !IsSpace(y[0]) && !IsSpace(y[|y| - 1]) by {
      assert y[0] == p[0];
      if x == [] {
        assert y[|y| - 1] == p[|p| - 1];
      } else {
        assert y[|y| - 1] == x[|x| - 1];
      }
    }
    StripAround(a, y, b);
    RemoveAllPrefix(p, x);
    RemoveAllAbsent(x, p);
  }

  /** A leading "whatsapp:" goes as well. */
  lemma CleanPrefixed(a: string, x: string, b: string)
    requires AllSpace(a) && AllSpace(b) && Absent(x, "whatsapp:")
    requires x == [] || !IsSpace(x[|x| - 1])
    ensures Clean(a + ("whatsapp:" + x) + b) == DropSeparators(x)
  {
    var w := "whatsapp:";
    VisibleNotSpace(w[0]);
    VisibleNotSpace(w[|w| - 1]);
    StripRemovePrefix(a, w, x, b);
  }

  /** The E.164 text form: "+" and at least one digit. */
  predicate IsE164(e: string) {
    |e| >= 2 && e[0] == '+' && AllDigits(e[1..])
  }

  /** `to_e164(number, region)`: `None` for "", else what the library makes
      of the cleaned text. */
  function ToE164(number: string, region: string, lib: Library): (r: Option<string>)
    ensures number == [] ==> r == None
    ensures r.Some? ==> IsE164(r.value)
    ensures number != [] ==> (r.Some? <==> lib(Clean(number), region).Some?)
    ensures r.Some? ==> r.value == "+" + IntToString(lib(Clean(number), region).value)
  {
    if number == [] then None
    else
      match lib(Clean(number), region)
      case None => None
      case Some(n) =>
        IntToStringDigits(n);
        assert ("+" + IntToString(n))[1..] == IntToString(n);
        Some("+" + IntToString(n))
  }

  /** An E.164 text has no surrounding whitespace. */
  lemma E164Stripped(e: string)
    requires IsE164(e)
    ensures Strip(e) == e
  {
    assert !IsSpace(e[0]);
    assert IsDigit(e[1..][|e| - 2]);
    assert !IsSpace(e[|e| - 1]);
  }

  /** The rewrite of an Argentine mobile number: "549..." becomes "54...". */
  function WaDigits(d: string): (r: string)
    ensures AllDigits(d) ==> AllDigits(r)
  {
    if StartsWith(d, "549") then "54" + d[3..] else d
  }

  /** `normalize_for_whatsapp(number)`; it parses with the fixed region "AR"
      and calls itself at most once, on an E.164 text. */
  function NormalizeForWhatsapp(number: string, lib: Library): (r: Option<string>)
    ensures r.None? <==> number == []
    decreases if StartsWith(Strip(number), "+") then 0 else 1
  {
    if number == [] then None
    else
      var s := Strip(number);
      if StartsWith(s, "+549") then Some("54" + s[4..])
      else if StartsWith(s, "+") then Some(s[1..])
      else
        match ToE164(s, "AR", lib)
        case Some(e) =>
          E164Stripped(e);
          NormalizeForWhatsapp(e, lib)
        case None =>
          var digits := KeepDigits(s);
          if StartsWith(digits, "549") then Some("54" + digits[3..]) else Some(digits)
  }

  /** The digits a WhatsApp id is made from: after the "+" when the stripped
      text has one, else the parsed E.164 digits, else the text's digits. */
  function WaSource(s: string, lib: Library): string {
    if StartsWith(s, "+") then s[1..]
    else
      match ToE164(s, "AR", lib)
      case Some(e) => e[1..]
      case None => KeepDigits(s)
  }

  /** Both "+" rules of `normalize_for_whatsapp` are the "549" rewrite of the
      text after the "+". */
  lemma PlusWa(s: string)
    requires StartsWith(s, "+")
    ensures (if StartsWith(s, "+549") then "54" + s[4..] else s[1..]) == WaDigits(s[1..])
  {
    if StartsWith(s, "+549") {
      assert s[..4] == "+549";
      assert s[1..][..3] == "549" by {
        forall k | 0 <= k < 3 ensures s[1..][..3][k] == "549"[k] {
          assert s[1..][..3][k] == s[..4][k + 1];
        }
      }
      assert s[1..][3..] == s[4..];
    }
  }

  /** The recursive case: a parsed number's WhatsApp id comes from its
      E.164 digits. */
  lemma NormalizeParsed(number: string, lib: Library)
    requires number != [] && !StartsWith(Strip(number), "+")
    requires ToE164(Strip(number), "AR", lib).Some?
    ensures NormalizeForWhatsapp(number, lib)
         == Some(WaDigits(ToE164(Strip(number), "AR", lib).value[1..]))
  {
    var e := ToE164(Strip(number), "AR", lib).value;
    E164Stripped(e);
    PlusWa(e);
    assert NormalizeForWhatsapp(number, lib) == NormalizeForWhatsapp(e, lib);
  }

  /** The "+" cases. */
  lemma NormalizePlus(number: string, lib: Library)
    requires number != [] && StartsWith(Strip(number), "+")
    ensures NormalizeForWhatsapp(number, lib) == Some(WaDigits(Strip(number)[1..]))
  {
    PlusWa(Strip(number));
  }

  /** The last resort: the digits of the stripped text. */
  lemma NormalizeFallback(number: string, lib: Library)
    requires number != [] && !StartsWith(Strip(number), "+")
    requires ToE164(Strip(number), "AR", lib).None?
    ensures NormalizeForWhatsapp(number, lib) == Some(WaDigits(KeepDigits(Strip(number))))
  {
  }

  /** `normalize_for_whatsapp` in one rule: the source digits with a leading
      "549" shortened to "54". */
  lemma NormalizeWa(number: string, lib: Library)
    requires number != []
    ensures NormalizeForWhatsapp(number, lib) == Some(WaDigits(WaSource(Strip(number), lib)))
  {
    var s := Strip(number);
    if StartsWith(s, "+") {
      NormalizePlus(number, lib);
    } else if ToE164(s, "AR", lib).Some? {
      NormalizeParsed(number, lib);
    } else {
      NormalizeFallback(number, lib);
    }
  }

  /** Without a leading "+", the WhatsApp id is all digits: from the parsed
      E.164 number, or from the last-resort digit filter. */
  lemma NormalizeDigits(number: string, lib: Library)
    requires number != [] && !StartsWith(Strip(number), "+")
    ensures AllDigits(NormalizeForWhatsapp(number, lib).value)
  {
    NormalizeWa(number, lib);
  }

  /** An E.164 number's WhatsApp id: the digits after "+", with "549"
      shortened to "54". */
  lemma NormalizeE164(e: string, lib: Library)
    requires IsE164(e)
    ensures NormalizeForWhatsapp(e, lib) == Some(WaDigits(e[1..]))
    ensures AllDigits(NormalizeForWhatsapp(e, lib).value)
  {
    E164Stripped(e);
    NormalizeWa(e, lib);
  }

  /** `(e164, wa_id, is_valid)` as `normalize_phone` returns it. */
  datatype PhoneResult = PhoneResult(e164: Option<string>, waId: Option<string>, valid: bool)

  /** `normalize_phone(raw, region)`. */
  function NormalizePhone(raw: string, region: string, lib: Library): (r: PhoneResult)
    ensures raw == [] ==> r == PhoneResult(None, None, false)
    ensures r.valid <==> r.e164.Some?
    ensures r.e164.Some? ==> IsE164(r.e164.value)
    ensures raw != [] ==>
      var rest := RemoveAll(raw, "whatsapp:");
      var e := ToE164(rest, region, lib);
      if e.Some? then r.e164 == e && r.waId == Some(WaDigits(e.value[1..]))
      else (r.waId == NormalizeForWhatsapp(rest, lib)
            && r.e164 == (if r.waId.None? then None else ToE164(r.waId.value, region, lib)))
  {
    if raw == [] then PhoneResult(None, None, false)
    else
      var raw := RemoveAll(raw, "whatsapp:");
      var e164 := ToE164(raw, region, lib);
      if e164.Some? then
        NormalizeE164(e164.value, lib);
        PhoneResult(e164, NormalizeForWhatsapp(e164.value, lib), true)
      else
        var waId := NormalizeForWhatsapp(raw, lib);
        var maybe := if waId.None? then None else ToE164(waId.value, region, lib);
        if maybe.Some? then PhoneResult(maybe, waId, true)
        else PhoneResult(e164, waId, false)
  }

  /** A "whatsapp:" prefix on the raw input changes nothing. */
  lemma NormalizePhonePrefix(x: string, region: string, lib: Library)
    ensures NormalizePhone("whatsapp:" + x, region, lib) == NormalizePhone(x, region, lib)
  {
    var p := "whatsapp:";
    assert StartsWith(p + x, p) && (p + x)[|p|..] == x;
    assert RemoveAll(p + x, p) == RemoveAll(x, p);
    if x == [] {
      assert RemoveAll(x, p) == [];
    }
  }

  /** When the raw input parses, the WhatsApp id is the E.164 number's
      digits with "549" shortened to "54"; the id is missing only when
      nothing is left once "whatsapp:" is removed. */
  lemma NormalizePhoneWa(raw: string, region: string, lib: Library)
    requires raw != []
    ensures var r := NormalizePhone(raw, region, lib);
      var rest := RemoveAll(raw, "whatsapp:");
      && (r.waId.None? <==> rest == [])
      && (ToE164(rest, region, lib).Some? ==> r.waId == Some(WaDigits(r.e164.value[1..])))
  {
    var rest := RemoveAll(raw, "whatsapp:");
    var e := ToE164(rest, region, lib);
    if e.Some? {
      NormalizeE164(e.value, lib);
    }
  }
}
