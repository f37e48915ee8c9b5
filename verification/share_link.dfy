/**
 * Public-link rules of the share drawer
 * (web/apps/photos/src/components/Collections/CollectionShare.tsx):
 * link expiry, the expiry choices, and the password gate of
 * `PublicLinkSetPassword`.
 *
 * Times: the clock is a parameter `nowMs` (milliseconds since the epoch,
 * `Date.now()`); expiry values are microseconds. The remote service is a
 * log of the update requests sent to it.
 */
module ShareLink {
  import opened Wrappers
  import opened SharingErrors

  /** An hour in milliseconds, as `microsecsAfter("hour")` adds it. */
  const HourMs: nat := 60 * 60 * 1000

  // ---------------------------------------------------------------- expiry

  /**
   * `isLinkExpired`: `validTill && validTill < Date.now() * 1000`. The value 0
   * ("never") is falsy, so such a link never expires; any other value is a
   * deadline in microseconds that has passed once it lies before now.
   */
  function IsLinkExpired(validTill: int, nowMs: nat): (expired: bool)
    ensures validTill == 0 ==> !expired
    ensures validTill != 0 ==> (expired <==> validTill < nowMs * 1000)
  {
    validTill != 0 && validTill < nowMs * 1000
  }

  /** Once expired, a link stays expired as time goes on. */
  lemma ExpiryIsPermanent(validTill: int, nowMs: nat, laterMs: nat)
    requires nowMs <= laterMs && IsLinkExpired(validTill, nowMs)
    ensures IsLinkExpired(validTill, laterMs)
  {
  }

  /** The rows of `shareExpiryOptions`, in order. */
  datatype ExpiryChoice = Never | Hour | Day | Week | Month | Year

  function ShareExpiryOptions(): (r: seq<ExpiryChoice>)
    ensures |r| == 6 && r[0] == Never && r[1] == Hour
    ensures forall i, j :: 0 <= i < j < |r| ==> r[i] != r[j]
  {
    [Never, Hour, Day, Week, Month, Year]
  }

  /**
   * The value of an expiry choice in microseconds: 0 for "never",
   * (now + one hour) * 1000 for "hour". The calendar choices use local-time
   * `Date` arithmetic, given here as the parameter `calendar` (the time in
   * milliseconds that `setDate`/`setMonth`/`setFullYear` produce).
   */
  function ExpiryValue(choice: ExpiryChoice, nowMs: nat, calendar: (ExpiryChoice, nat) -> nat): (micros: int)
    ensures choice == Never ==> micros == 0
    ensures choice == Hour ==> micros == (nowMs + HourMs) * 1000 && micros > nowMs * 1000
    ensures choice != Never && choice != Hour ==> micros == calendar(choice, nowMs) * 1000
  {
    match choice
    case Never => 0
    case Hour => (nowMs + HourMs) * 1000
    case _ => calendar(choice, nowMs) * 1000
  }

  /**
   * An "hour" expiry is not expired at the moment the value is computed, and it expires exactly
   * once the clock passes one hour after the moment the value is computed.
   */
  lemma HourExpiryWindow(computedAtMs: nat, nowMs: nat, calendar: (ExpiryChoice, nat) -> nat)
    ensures !IsLinkExpired(ExpiryValue(Hour, computedAtMs, calendar), computedAtMs)
    ensures IsLinkExpired(ExpiryValue(Hour, computedAtMs, calendar), nowMs) <==> nowMs > computedAtMs + HourMs
  {
  }

  /** "Never" is never expired, whatever the clock says. */
  lemma NeverDoesNotExpire(nowMs: nat, calendar: (ExpiryChoice, nat) -> nat)
    ensures !IsLinkExpired(ExpiryValue(Never, nowMs, calendar), nowMs)
  {
  }

  // -------------------------------------------------------- password gate

  /**
   * The characters `String.prototype.trim` removes: the ECMAScript
   * WhiteSpace (tab, vertical tab, form feed, space, no-break space, BOM and
   * the Zs category) and LineTerminator (LF, CR, U+2028, U+2029) sets.
   */
  predicate IsJsWhitespace(c: char)
  {
    var n := c as int;
    n == 0x09 || n == 0x0A || n == 0x0B || n == 0x0C || n == 0x0D || n == 0x20 ||
    n == 0xA0 || n == 0x1680 || (0x2000 <= n <= 0x200A) || n == 0x2028 || n == 0x2029 ||
    n == 0x202F || n == 0x205F || n == 0x3000 || n == 0xFEFF
  }

  predicate AllWhitespace(s: string)
  {
    forall i :: 0 <= i < |s| ==> IsJsWhitespace(s[i])
  }

  function TrimStart(s: string): (r: string)
    ensures |r| <= |s| && r == s[|s| - |r|..]
    ensures AllWhitespace(s[..|s| - |r|])
    ensures r != [] ==> !IsJsWhitespace(r[0])
  {
    if s != [] && IsJsWhitespace(s[0]) then
      var r := TrimStart(s[1..]);
      assert s[..|s| - |r|] == [s[0]] + s[1..][..|s| - 1 - |r|];
      r
    else s
  }

  function TrimEnd(s: string): (r: string)
    ensures |r| <= |s| && r == s[..|r|]
    ensures AllWhitespace(s[|r|..])
    ensures r != [] ==> !IsJsWhitespace(r[|r| - 1])
  {
    if s != [] && IsJsWhitespace(s[|s| - 1]) then
      var r := TrimEnd(s[..|s| - 1]);
      assert s[|r|..] == s[..|s| - 1][|r|..] + [s[|s| - 1]];
      r
    else s
  }

  /** `String.prototype.trim`. */
  function Trim(s: string): (r: string)
  {
    TrimEnd(TrimStart(s))
  }

  /** Trimming leaves something exactly when the string has a non-whitespace character. */
  lemma TrimEmptyIffBlank(s: string)
    ensures |Trim(s)| >= 1 <==> exists i :: 0 <= i < |s| && !IsJsWhitespace(s[i])
  {
    var t := TrimStart(s);
    var k := |s| - |t|;
    if |Trim(s)| >= 1 {
      var r := Trim(s);
      assert !IsJsWhitespace(r[0]);
      assert r[0] == t[0] == s[k];
    } else {
      assert t == t[0..];
      forall i | 0 <= i < |s|
        ensures IsJsWhitespace(s[i])
      {
        if i < k {
          assert s[i] == s[..k][i];
        } else {
          assert s[i] == t[i - k];
          assert t[i - k] == t[0..][i - k];
        }
      }
    }
  }

  /**
   * The guard of `savePassword`: the passphrase is present and non-empty
   * (truthy) and still non-empty after trimming, that is, it has a
   * character that is not whitespace.
   */
  function PasswordAccepted(passphrase: Option<string>): (ok: bool)
    ensures ok <==> passphrase.Some? && exists i :: 0 <= i < |passphrase.value| && !IsJsWhitespace(passphrase.value[i])
  {
    if passphrase.Some? then
      TrimEmptyIffBlank(passphrase.value);
      |passphrase.value| > 0 && |Trim(passphrase.value)| >= 1
    else false
  }

  // ------------------------------------------------ component state, effects

  /** What `deriveInteractiveKey` returns: key, ops limit and memory limit. */
  datatype DerivedKey = DerivedKey(key: string, opsLimit: nat, memLimit: nat)

  /** The update requests the drawer sends (`UpdatePublicURL`), restricted to the modelled ones. */
  datatype UpdatePublicUrl =
    | SetValidTill(collectionId: int, validTill: int)
    | SetPassword(collectionId: int, passHash: string, nonce: string, opsLimit: nat, memLimit: nat)

  /** The remote share service: the log of `updateShareableURL` requests. */
  class ShareService {
    var updates: seq<UpdatePublicUrl>

    constructor ()
      ensures updates == []
    {
      updates := [];
    }

    /**
     * `updatePublicShareURLHelper`: sends the request; a remote failure is
     * caught and becomes the drawer's link error message.
     */
    method UpdatePublicShareUrl(req: UpdatePublicUrl, remoteError: Option<ParsedError>)
      returns (linkError: Option<Message>)
      modifies this
      ensures updates == old(updates) + [req]
      ensures linkError == if remoteError.Some? then Some(HandleSharingErrors(remoteError.value)) else None
    {
      updates := updates + [req];
      linkError := if remoteError.Some? then Some(HandleSharingErrors(remoteError.value)) else None;
    }
  }

  /** The fields of `publicShareProp` that the drawer writes in place. */
  class PublicShareProp {
    var validTill: int
    var passwordEnabled: bool

    constructor (validTill: int, passwordEnabled: bool)
      ensures this.validTill == validTill && this.passwordEnabled == passwordEnabled
    {
      this.validTill := validTill;
      this.passwordEnabled := passwordEnabled;
    }
  }

  /**
   * `changeShareExpiryValue`, bound to a row when the option list renders:
   * the value is computed from the clock at rendering (`renderMs`), sent,
   * and written into the link once the request returns (`setMs`), whether
   * or not it succeeded. "Never" is not expired when written; "hour" is not
   * expired exactly when it is written within an hour of rendering; a
   * calendar choice is not expired exactly when its time is 0 (falsy) or not
   * before the write.
   */
  method ChangeShareExpiryValue(prop: PublicShareProp, service: ShareService, collectionId: int,
                                choice: ExpiryChoice, renderMs: nat, setMs: nat,
                                calendar: (ExpiryChoice, nat) -> nat, remoteError: Option<ParsedError>)
    returns (linkError: Option<Message>)
    modifies prop, service
    ensures prop.validTill == ExpiryValue(choice, renderMs, calendar)
    ensures prop.passwordEnabled == old(prop.passwordEnabled)
    ensures service.updates == old(service.updates) + [SetValidTill(collectionId, prop.validTill)]
    ensures linkError == if remoteError.Some? then Some(HandleSharingErrors(remoteError.value)) else None
    ensures choice == Never ==> !IsLinkExpired(prop.validTill, setMs)
    ensures choice == Hour ==> (!IsLinkExpired(prop.validTill, setMs) <==> setMs <= renderMs + HourMs)
    ensures choice != Never && choice != Hour ==>
      (!IsLinkExpired(prop.validTill, setMs) <==> calendar(choice, renderMs) == 0 || calendar(choice, renderMs) >= setMs)
  {
    var value := ExpiryValue(choice, renderMs, calendar);
    linkError := service.UpdatePublicShareUrl(SetValidTill(collectionId, value), remoteError);
    prop.validTill := value;
  }

  /**
   * `savePassword`: a blank passphrase sets the "can not be empty" field
   * error and sends nothing. Otherwise the key derived from the passphrase
   * and a fresh salt is sent (never the passphrase itself), and
   * `passwordEnabled` is set, also when the request failed: the helper
   * swallows remote errors.
   */
  method SavePassword(prop: PublicShareProp, service: ShareService, collectionId: int,
                      passphrase: Option<string>, salt: string,
                      deriveInteractiveKey: (string, string) -> DerivedKey,
                      remoteError: Option<ParsedError>)
    returns (fieldError: Option<Message>, linkError: Option<Message>)
    modifies prop, service
    ensures prop.validTill == old(prop.validTill)
    ensures !PasswordAccepted(passphrase) ==>
      fieldError == Some(CanNotBeEmpty) && linkError.None? &&
      service.updates == old(service.updates) && prop.passwordEnabled == old(prop.passwordEnabled)
    ensures PasswordAccepted(passphrase) ==>
      var kek := deriveInteractiveKey(passphrase.value, salt);
      fieldError.None? &&
      linkError == (if remoteError.Some? then Some(HandleSharingErrors(remoteError.value)) else None) &&
      service.updates == old(service.updates) + [SetPassword(collectionId, kek.key, salt, kek.opsLimit, kek.memLimit)] &&
      prop.passwordEnabled
  {
    if PasswordAccepted(passphrase) {
      var kek := deriveInteractiveKey(passphrase.value, salt);
      linkError := service.UpdatePublicShareUrl(SetPassword(collectionId, kek.key, salt, kek.opsLimit, kek.memLimit), remoteError);
      fieldError := None;
      prop.passwordEnabled := true;
    } else {
      fieldError, linkError := Some(CanNotBeEmpty), None;
    }
  }
}
