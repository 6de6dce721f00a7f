/**
 * One entry in the list (src/components/EntryCard.js): the relative age
 * label, the type chip, the manual/clipboard badge, which text the card
 * shows, and the state steps of the "reveal" action for encrypted entries.
 */
module EntryCardView {
  import opened Wrappers
  import opened Text
  import opened Patterns
  import opened Schema
  import Operations
  import MainProcess

  // ----- the age label -----

  /** The label `formatDate` picks; `OnDate` is the locale date string of the timestamp. */
  datatype Age = JustNow | MinutesAgo(minutes: nat) | HoursAgo(hours: nat) | DaysAgo(days: nat) | OnDate(timestamp: int)

  const MinuteMillis: int := 60000
  const HourMillis: int := 3600000
  const DayMillis: int := 86400000

  /**
   * `formatDate(timestamp)` at time `now` (both in milliseconds). The
   * differences are floored; a timestamp in the future is "Just now".
   */
  function FormatDate(timestamp: int, now: int): (a: Age)
    ensures a == JustNow <==> now - timestamp < MinuteMillis
    ensures a.MinutesAgo? ==>
      1 <= a.minutes <= 59 && a.minutes * MinuteMillis <= now - timestamp < (a.minutes + 1) * MinuteMillis
    ensures a.HoursAgo? ==>
      1 <= a.hours <= 23 && a.hours * HourMillis <= now - timestamp < (a.hours + 1) * HourMillis
    ensures a.DaysAgo? ==>
      1 <= a.days <= 6 && a.days * DayMillis <= now - timestamp < (a.days + 1) * DayMillis
    ensures a.OnDate? <==> now - timestamp >= 7 * DayMillis
    ensures a.OnDate? ==> a.timestamp == timestamp
  {
    var diff := now - timestamp;
    var mins := diff / MinuteMillis;
    var hours := diff / HourMillis;
    var days := diff / DayMillis;
    if mins < 1 then JustNow
    else if mins < 60 then MinutesAgo(mins)
    else if hours < 24 then HoursAgo(hours)
    else if days < 7 then DaysAgo(days)
    else OnDate(timestamp)
  }

  /** The text of a relative label; the locale date is rendered outside the model. */
  function RelativeText(a: Age): (r: Option<string>)
    ensures r.Some? <==> !a.OnDate?
    ensures a.MinutesAgo? && r.Some? ==> r.value == Decimal(a.minutes) + "m ago"
    ensures a.HoursAgo? && r.Some? ==> r.value == Decimal(a.hours) + "h ago"
    ensures a.DaysAgo? && r.Some? ==> r.value == Decimal(a.days) + "d ago"
  {
    match a
    case JustNow => Some("Just now")
    case MinutesAgo(n) => Some(Decimal(n) + "m ago")
    case HoursAgo(n) => Some(Decimal(n) + "h ago")
    case DaysAgo(n) => Some(Decimal(n) + "d ago")
    case OnDate(_) => None
  }

  /** How far back a label reaches: an older entry never gets a fresher label. */
  function Rank(a: Age): int {
    match a
    case JustNow => 0
    case MinutesAgo(n) => n
    case HoursAgo(n) => 60 * n
    case DaysAgo(n) => 1440 * n
    case OnDate(_) => 10080
  }

  /** Every label `formatDate` gives an entry less than a week old is a relative text. */
  lemma RelativeUnderAWeek(timestamp: int, now: int)
    ensures RelativeText(FormatDate(timestamp, now)).Some? <==> now - timestamp < 7 * DayMillis
  {
  }

  lemma FormatDateMonotone(older: int, newer: int, now: int)
    requires older <= newer
    ensures Rank(FormatDate(newer, now)) <= Rank(FormatDate(older, now))
  {
    var a := FormatDate(older, now);
    var b := FormatDate(newer, now);
    var d1 := now - older;
    var d2 := now - newer;
    assert d2 <= d1;
    assert d1 / MinuteMillis >= d2 / MinuteMillis;
  }

  // ----- the type chip -----

  datatype Kind = Url | Email | Code

  /** `detectCategory(text)`: the first of URL, email, code whose pattern matches. */
  function DetectCategory(text: string): (k: Option<Kind>)
    ensures k == Some(Url) <==> IsUrl(text)
    ensures k == Some(Email) <==> !IsUrl(text) && IsEmail(text)
    ensures k == Some(Code) <==> !IsUrl(text) && !IsEmail(text) && IsCode(text)
    ensures k == None <==> !IsUrl(text) && !IsEmail(text) && !IsCode(text)
  {
    if IsUrl(text) then Some(Url)
    else if IsEmail(text) then Some(Email)
    else if IsCode(text) then Some(Code)
    else None
  }

  /**
   * A text can match both the URL and the email pattern; the chip then says
   * URL, while the sidebar lists the entry under both.
   */
  lemma UrlShadowsEmail()
    ensures IsUrl("http://a@b.c") && IsEmail("http://a@b.c")
    ensures DetectCategory("http://a@b.c") == Some(Url)
  {
    ExampleIsUrl();
    ExampleIsEmail();
  }

  lemma ExampleIsUrl()
    ensures IsUrl("http://a@b.c")
  {
    var s := "http://a@b.c";
    assert s[..7] == "http://";
    assert !IsLineTerminator(s[7]);
  }

  lemma ExampleIsEmail()
    ensures IsEmail("http://a@b.c")
  {
    var s := "http://a@b.c";
    assert s[..8] == "http://a" && s[9..10] == "b" && s[11..] == "c";
    assert EmailPart("http://a") by {
      forall i | 0 <= i < 8 ensures !IsJsWhitespace("http://a"[i]) && "http://a"[i] != '@' {
        assert "http://a"[i] in {'h', 't', 'p', ':', '/', 'a'};
      }
    }
    assert EmailPart("b") && EmailPart("c");
    assert s[8] == '@' && s[10] == '.';
  }

  // ----- the card's text -----

  /** `isManual`: an entry with a non-empty custom name counts as added by hand. */
  function IsManual(e: Entry): (r: bool)
    ensures r ==> e.customName.Some? && MainProcess.TrayLabel(e) == e.customName.value
    ensures !r ==> MainProcess.TrayLabel(e) == Truncate(e.content, 50)
  {
    e.customName.Some? && e.customName.value != ""
  }

  /**
   * The badge follows the name, not how the entry arrived: an entry is
   * manual from insertion exactly when it was added with a title, and any
   * entry becomes manual once renamed to a non-empty name.
   */
  lemma ManualFollowsName(t: Tables, c: Crypto, id: int, content: string, opts: Operations.AddOptions, now: int, iv: string, name: string)
    ensures IsManual(Operations.NewRow(c, id, content, opts, now, iv)) <==> opts.title != ""
    ensures id in t.entries ==> (IsManual(Operations.UpdateCustomName(t, id, Some(name)).entries[id]) <==> name != "")
    ensures id in t.entries ==> !IsManual(Operations.UpdateCustomName(t, id, None).entries[id])
  {
  }

  /**
   * The card's body line: the revealed plaintext once decrypted, else the
   * content of a plain entry; each cut at 150 characters. The body line of an
   * encrypted entry that has not been revealed is empty.
   */
  function ShownText(e: Entry, showDecrypted: bool, decryptedContent: string): (r: Option<string>)
    ensures r.None? <==> !showDecrypted && e.isEncrypted
    ensures showDecrypted ==> r == Some(Truncate(decryptedContent, 150))
    ensures !showDecrypted && !e.isEncrypted ==> r == Some(Truncate(e.content, 150))
    ensures r.Some? ==> |r.value| <= 153
  {
    if showDecrypted then Some(Truncate(decryptedContent, 150))
    else if !e.isEncrypted then Some(Truncate(e.content, 150))
    else None
  }

  /**
   * The italic line above the body: an encrypted entry's stored content,
   * shown whether or not the entry has been revealed; no line for a plain entry.
   */
  function CipherLine(e: Entry): (r: Option<string>)
    ensures r.Some? <==> e.isEncrypted
    ensures r.Some? ==> r.value == e.content
  {
    if e.isEncrypted then Some(e.content) else None
  }

  /**
   * A card always displays its entry's text in some form: a card added with a
   * password shows the ciphertext `encrypt` produced on its italic line, before
   * and after a reveal, while its body line stays empty until the reveal.
   */
  lemma EncryptedCardShowsCiphertext(c: Crypto, id: int, content: string, opts: Operations.AddOptions, now: int, iv: string, showDecrypted: bool, plaintext: string)
    requires opts.encrypt && opts.password != ""
    ensures CipherLine(Operations.NewRow(c, id, content, opts, now, iv)) == Some(c.encrypt(content, opts.password, iv))
    ensures ShownText(Operations.NewRow(c, id, content, opts, now, iv), showDecrypted, plaintext).None? <==> !showDecrypted
  {
  }

  /** Every card displays something: the body line when there is one, else the italic line. */
  lemma CardNeverBlank(e: Entry, showDecrypted: bool, plaintext: string)
    ensures ShownText(e, showDecrypted, plaintext).Some? || CipherLine(e).Some?
  {
  }

  // ----- revealing an encrypted entry -----

  /** The card's reveal state. */
  class EntryCard {
    const entry: Entry
    var showDecrypted: bool
    var decrypting: bool
    var decryptedContent: string
    var password: string
    var error: string

    constructor (entry: Entry)
      ensures this.entry == entry
      ensures !showDecrypted && !decrypting && decryptedContent == "" && password == "" && error == ""
    {
      this.entry := entry;
      showDecrypted := false;
      decrypting := false;
      decryptedContent := "";
      password := "";
      error := "";
    }

    /** The text the card displays now. */
    function Shown(): Option<string>
      reads this
    {
      ShownText(entry, showDecrypted, decryptedContent)
    }

    /**
     * `handleDecrypt`: asks `decrypt-entry` with the typed password and the
     * master password; success reveals the content, failure sets the error
     * (the reply's, or "Decryption failed" when it has none) and leaves the
     * card as it was. `decrypting` is false again at the end.
     */
    method HandleDecrypt(main: MainProcess.MainState, masterPassword: string) returns (reply: MainProcess.DecryptReply)
      requires main.Valid()
      modifies this
      ensures reply.Decrypted? ==> showDecrypted && decryptedContent == reply.content && error == ""
      ensures reply.DecryptFailed? ==>
        && showDecrypted == old(showDecrypted) && decryptedContent == old(decryptedContent)
        && error == (if reply.error != "" then reply.error else "Decryption failed")
      ensures main.db == null ==> reply == MainProcess.DecryptFailed("No DB")
      ensures main.db != null ==> reply == MainProcess.DecryptEntry(main.db.crypto,
        if entry.id in main.db.State().entries then Some(main.db.State().entries[entry.id]) else None,
        old(password), masterPassword)
      ensures !decrypting && password == old(password)
    {
      decrypting := true;
      error := "";
      reply := main.HandleDecryptEntry(entry.id, password, masterPassword);
      if reply.Decrypted? {
        decryptedContent := reply.content;
        showDecrypted := true;
      } else {
        error := if reply.error != "" then reply.error else "Decryption failed";
      }
      decrypting := false;
    }
  }

  /**
   * The body line of a card on an encrypted entry is empty until a reveal
   * succeeds, and then shows the decrypted text, cut at 150 characters.
   */
  lemma RevealShowsPlaintext(e: Entry, plaintext: string)
    requires e.isEncrypted
    ensures ShownText(e, false, "") == None
    ensures ShownText(e, true, plaintext) == Some(Truncate(plaintext, 150))
  {
  }
}
