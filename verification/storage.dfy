/**
  The two-slot persistence layer of src/lib/storage.ts. One localStorage
  entry holds the last saved form as JSON; one cookie holds the same JSON,
  URI-encoded. Hydration reads the cookie first and falls back to
  localStorage. Every operation is a no-op (or reads nothing) when the
  browser global it needs is missing, as during server rendering.
*/
module Storage {
  import opened Wrappers
  import opened Text
  import opened FormTypes
  import opened Cookies

  const StorageKey: string := "storage_form_key"
  const CookieName: string := "cookie_form_key"
  const CookieDays: nat := 3

  /** `new Date(0).toUTCString()`: an expiry in the past. */
  const Epoch: string := "Thu, 01 Jan 1970 00:00:00 GMT"

  /** The foreign encoders the layer calls: `JSON.stringify`, `JSON.parse`,
      `encodeURIComponent` and `decodeURIComponent`. */
  datatype Codecs = Codecs(
    stringify: FormData -> string,
    parse: string -> PartialForm,
    encodeUri: string -> string,
    decodeUri: string -> string)

  /** The characters `encodeURIComponent` may emit: the unreserved marks,
      letters and digits, and '%' for escapes. */
  predicate UriComponentChar(ch: char) {
    || ('A' <= ch <= 'Z') || ('a' <= ch <= 'z') || ('0' <= ch <= '9')
    || ch in "-_.!~*'()%"
  }

  predicate UriComponentText(s: string) {
    forall i :: 0 <= i < |s| ==> UriComponentChar(s[i])
  }

  /** What the layer relies on from its encoders: JSON round-trips a form
      with all nine keys and is never empty, and URI encoding round-trips,
      keeps non-empty text non-empty and stays within its alphabet. */
  ghost predicate Lawful(c: Codecs) {
    && (forall d :: c.parse(c.stringify(d)) == Whole(d))
    && (forall d :: c.stringify(d) != [])
    && (forall s :: c.decodeUri(c.encodeUri(s)) == s)
    && (forall s :: UriComponentText(c.encodeUri(s)))
    && (forall s :: s != [] ==> c.encodeUri(s) != [])
  }

  /** The browser state the layer touches. `hasWindow` and `hasDocument`
      say whether `window` and `document` are defined; `quota` is how long a
      localStorage value may be before `setItem` throws. */
  datatype Browser = Browser(
    hasWindow: bool,
    hasDocument: bool,
    quota: nat,
    local: map<string, string>,
    jar: seq<Cookie>)

  datatype StorageError = QuotaExceeded

  /** `saveToLocalStorage`: overwrite the one entry, or throw when the
      serialised form exceeds the quota. */
  function SaveToLocalStorage(b: Browser, c: Codecs, d: FormData): (r: Result<Browser, StorageError>)
    ensures r.Err? <==> b.hasWindow && |c.stringify(d)| > b.quota
    ensures r.Ok? ==> r.value.(local := b.local) == b
    ensures r.Ok? && b.hasWindow ==> r.value.local == b.local[StorageKey := c.stringify(d)]
  {
    if !b.hasWindow then Ok(b)
    else
      var raw := c.stringify(d);
      if |raw| > b.quota then Err(QuotaExceeded)
      else Ok(b.(local := b.local[StorageKey := raw]))
  }

  /** `loadFromLocalStorage`: nothing when the entry is absent or empty,
      otherwise the parsed entry. */
  function LoadFromLocalStorage(b: Browser, c: Codecs): (r: Option<PartialForm>)
    ensures r.Some? <==> b.hasWindow && StorageKey in b.local && b.local[StorageKey] != ""
  {
    if !b.hasWindow then None
    else if StorageKey !in b.local || b.local[StorageKey] == "" then None
    else Some(c.parse(b.local[StorageKey]))
  }

  /** `clearLocalStorage`: remove the entry. */
  function ClearLocalStorage(b: Browser): (r: Browser)
    ensures StorageKey !in r.local || !b.hasWindow
    ensures forall k :: k in r.local <==> k in b.local && (k != StorageKey || !b.hasWindow)
    ensures forall k :: k in r.local ==> r.local[k] == b.local[k]
    ensures r.(local := b.local) == b
  {
    if !b.hasWindow then b else b.(local := b.local - {StorageKey})
  }

  /** The attributes `saveToCookie` appends, for a given expiry date. */
  function SaveAttributes(expires: string): string {
    "expires=" + expires + "; path=/; SameSite=Lax"
  }

  /** `saveToCookie`: assign `cookie_form_key=<encoded JSON>; expires=...`.
      The expiry, three days ahead, is a clock reading and is passed in; it
      lies in the future, so the browser stores the cookie. */
  function SaveToCookie(b: Browser, c: Codecs, d: FormData, expires: string): (r: Browser)
    ensures r.(jar := b.jar) == b
    ensures b.hasDocument && ValidValue(c.encodeUri(c.stringify(d))) ==>
              && Lookup(r.jar, CookieName) == Some(c.encodeUri(c.stringify(d)))
              && forall n :: n != CookieName ==> Lookup(r.jar, n) == Lookup(b.jar, n)
  {
    if !b.hasDocument then b
    else
      var encoded := c.encodeUri(c.stringify(d));
      SaveAssignmentParsed(encoded, expires);
      match ParseAssignment(Assignment(CookieName, encoded, SaveAttributes(expires)))
      case Some(cookie) => b.(jar := Put(b.jar, cookie))
      case None => b
  }

  /** The browser reads back the pair `saveToCookie` assigns whenever the
      value is a valid cookie value. */
  lemma SaveAssignmentParsed(encoded: string, expires: string)
    ensures ValidValue(encoded) ==>
              ParseAssignment(Assignment(CookieName, encoded, SaveAttributes(expires))) == Some(Cookie(CookieName, encoded))
  {
    CookieNameValid();
    if ValidValue(encoded) {
      AssignmentRecovered(CookieName, encoded, SaveAttributes(expires));
    }
  }

  /** `loadFromCookie`: run the read loop over `document.cookie` and parse
      the decoded value it finds. */
  function LoadFromCookie(b: Browser, c: Codecs): (r: Option<PartialForm>)
    ensures !b.hasDocument ==> r.None?
    ensures r.Some? ==> exists v :: r == Some(c.parse(c.decodeUri(v)))
  {
    if !b.hasDocument then None
    else
      match FindValue(Split(Header(b.jar), ';'), CookieName)
      case None => None
      case Some(v) => Some(c.parse(c.decodeUri(v)))
  }

  /** `clearCookie`: assign an empty value with an expiry at the epoch; the
      browser drops an expired cookie. */
  function ClearCookie(b: Browser): (r: Browser)
    ensures r.(jar := b.jar) == b
    ensures b.hasDocument ==> Lookup(r.jar, CookieName).None?
    ensures b.hasDocument ==> forall n :: n != CookieName ==> Lookup(r.jar, n) == Lookup(b.jar, n)
    ensures WellFormed(b.jar) ==> WellFormed(r.jar)
  {
    if !b.hasDocument then b
    else
      CookieNameValid();
      AssignmentRecovered(CookieName, "", "expires=" + Epoch + "; path=/;");
      match ParseAssignment(Assignment(CookieName, "", "expires=" + Epoch + "; path=/;"))
      case Some(cookie) => b.(jar := Remove(b.jar, cookie.name))
      case None => b
  }

  /** `hydrateFromStorage`: `loadFromCookie() ?? loadFromLocalStorage()`. */
  function HydrateFromStorage(b: Browser, c: Codecs): (r: Option<PartialForm>)
    ensures LoadFromCookie(b, c).Some? ==> r == LoadFromCookie(b, c)
    ensures LoadFromCookie(b, c).None? ==> r == LoadFromLocalStorage(b, c)
  {
    match LoadFromCookie(b, c)
    case Some(p) => Some(p)
    case None => LoadFromLocalStorage(b, c)
  }

  lemma CookieNameValid()
    ensures ValidName(CookieName)
  {
  }

  /** A successful save is read back as the whole form. */
  lemma LocalSaveLoad(b: Browser, c: Codecs, d: FormData)
    requires Lawful(c) && b.hasWindow
    requires SaveToLocalStorage(b, c, d).Ok?
    ensures LoadFromLocalStorage(SaveToLocalStorage(b, c, d).value, c) == Some(Whole(d))
  {
  }

  /** A second save fully replaces the first: saving `d1` and then `d2`
      leaves the same state as saving `d2` alone. */
  lemma LocalSaveOverwrites(b: Browser, c: Codecs, d1: FormData, d2: FormData)
    requires SaveToLocalStorage(b, c, d1).Ok?
    ensures SaveToLocalStorage(SaveToLocalStorage(b, c, d1).value, c, d2) == SaveToLocalStorage(b, c, d2)
  {
    if b.hasWindow {
      var b1 := SaveToLocalStorage(b, c, d1).value;
      assert b1.quota == b.quota;
      if |c.stringify(d2)| <= b.quota {
        assert b1.local[StorageKey := c.stringify(d2)] == b.local[StorageKey := c.stringify(d2)];
      }
    }
  }

  /** After a clear, nothing is loaded. */
  lemma LocalClearLoad(b: Browser, c: Codecs)
    ensures LoadFromLocalStorage(ClearLocalStorage(b), c) == None
  {
  }

  /** What `loadFromCookie` returns, stated over the jar: the parsed,
      decoded value of the cookie named `cookie_form_key` cut at its first
      '=', and nothing when that cookie is missing or its value empty. No
      other cookie has any influence. */
  lemma CookieLoad(b: Browser, c: Codecs)
    requires WellFormed(b.jar)
    ensures LoadFromCookie(b, c)
         == if !b.hasDocument then None
            else match Visible(b.jar, CookieName)
                 case None => None
                 case Some(v) => Some(c.parse(c.decodeUri(v)))
  {
    CookieNameValid();
    ReadHeader(b.jar, CookieName);
  }

  lemma EncodedValueShape(c: Codecs, d: FormData)
    requires Lawful(c)
    ensures ValidValue(c.encodeUri(c.stringify(d)))
    ensures '=' !in c.encodeUri(c.stringify(d))
    ensures c.encodeUri(c.stringify(d)) != []
  {
    var e := c.encodeUri(c.stringify(d));
    assert UriComponentText(e);
    forall i | 0 <= i < |e| ensures !IsWhitespace(e[i]) && e[i] != ';' && e[i] != '=' {
      assert UriComponentChar(e[i]);
    }
  }

  /** Saving to the cookie and loading it back recovers the whole form,
      media data URLs included: the encoded value holds no ';' or '=', so the
      read loop's splits do not cut it. */
  lemma CookieSaveLoad(b: Browser, c: Codecs, d: FormData, expires: string)
    requires Lawful(c) && b.hasDocument && WellFormed(b.jar)
    ensures WellFormed(SaveToCookie(b, c, d, expires).jar)
    ensures LoadFromCookie(SaveToCookie(b, c, d, expires), c) == Some(Whole(d))
  {
    var encoded := c.encodeUri(c.stringify(d));
    EncodedValueShape(c, d);
    CookieNameValid();
    SaveToCookieStores(b, c, d, expires);
    var b' := SaveToCookie(b, c, d, expires);
    assert Visible(b'.jar, CookieName) == Some(encoded) by {
      SplitAbsent(encoded, '=');
    }
    CookieLoad(b', c);
  }

  /** With a document present, the save stores the encoded form under the
      cookie name. */
  lemma SaveToCookieStores(b: Browser, c: Codecs, d: FormData, expires: string)
    requires b.hasDocument && ValidValue(c.encodeUri(c.stringify(d)))
    ensures SaveToCookie(b, c, d, expires).jar == Put(b.jar, Cookie(CookieName, c.encodeUri(c.stringify(d))))
  {
    CookieNameValid();
    AssignmentRecovered(CookieName, c.encodeUri(c.stringify(d)), SaveAttributes(expires));
  }

  /** After `clearCookie`, `loadFromCookie` finds nothing. */
  lemma CookieClearLoad(b: Browser, c: Codecs)
    requires WellFormed(b.jar)
    ensures WellFormed(ClearCookie(b).jar)
    ensures LoadFromCookie(ClearCookie(b), c) == None
  {
    if b.hasDocument {
      CookieNameValid();
      AssignmentRecovered(CookieName, "", "expires=" + Epoch + "; path=/;");
      var b' := ClearCookie(b);
      assert b'.jar == Remove(b.jar, CookieName);
      CookieLoad(b', c);
    }
  }

  /** Without `window` and `document` every save and clear leaves the
      browser as it was and every load finds nothing. */
  lemma NoBrowserGlobals(b: Browser, c: Codecs, d: FormData, expires: string)
    requires !b.hasWindow && !b.hasDocument
    ensures SaveToLocalStorage(b, c, d) == Ok(b)
    ensures SaveToCookie(b, c, d, expires) == b
    ensures ClearLocalStorage(b) == b && ClearCookie(b) == b
    ensures LoadFromLocalStorage(b, c) == None && LoadFromCookie(b, c) == None
    ensures HydrateFromStorage(b, c) == None
  {
  }

  /** Saving to both slots, localStorage first, makes hydration return the
      whole saved form, whatever either slot held before. */
  lemma HydrateAfterSave(b: Browser, c: Codecs, d: FormData, expires: string)
    requires Lawful(c) && WellFormed(b.jar)
    requires b.hasWindow || b.hasDocument
    requires SaveToLocalStorage(b, c, d).Ok?
    ensures HydrateFromStorage(SaveToCookie(SaveToLocalStorage(b, c, d).value, c, d, expires), c) == Some(Whole(d))
  {
    var b1 := SaveToLocalStorage(b, c, d).value;
    var b2 := SaveToCookie(b1, c, d, expires);
    if b.hasDocument {
      CookieSaveLoad(b1, c, d, expires);
    } else {
      assert b2 == b1;
      LocalSaveLoad(b, c, d);
    }
  }

  /** Clearing both slots makes hydration find nothing. */
  lemma HydrateAfterClear(b: Browser, c: Codecs)
    requires WellFormed(b.jar)
    ensures HydrateFromStorage(ClearCookie(ClearLocalStorage(b)), c) == None
  {
    CookieClearLoad(ClearLocalStorage(b), c);
  }

  /** A form saved under an id in the collection the pages read. */
  datatype SavedForm = SavedForm(id: string, data: FormData, submittedAt: string)
}
