/** `User`: an account with its credentials, profile, presence state and
    preferences. Wrapper-typed fields that Java lets be `null` are `Option`s;
    the `@PrePersist` hook fills the ones it defaults. */
module Users {
  import opened Common

  const STATUS_ONLINE := "ONLINE"
  const STATUS_OFFLINE := "OFFLINE"
  const STATUS_AWAY := "AWAY"
  const STATUS_BUSY := "BUSY"

  const PRIVACY_PUBLIC := "PUBLIC"
  const PRIVACY_FRIENDS := "FRIENDS"
  const PRIVACY_PRIVATE := "PRIVATE"

  // ---------------------------------------------------------------------------
  // @Email, as Hibernate Validator checks it
  // ---------------------------------------------------------------------------

  /** A character of an unquoted local-part atom. A domain label allows the
      same characters, with `-` only inside the label. ASCII letters match in
      either case, and every character from U+0080 to U+FFFF is allowed. */
  predicate EmailAtomChar(c: char) {
    'a' <= c <= 'z' || 'A' <= c <= 'Z' || '0' <= c <= '9' || EmailSymbol(c)
    || 0x80 <= c as int <= 0xFFFF
  }

  /** The punctuation an atom allows: ! # $ % & ' * + / = ? ^ _ ` { | } ~ - */
  predicate EmailSymbol(c: char) {
    c == '!' || '#' <= c <= '\'' || c == '*' || c == '+' || c == '/' || c == '=' || c == '?'
    || c == '^' || c == '_' || c == '`' || '{' <= c <= '~' || c == '-'
  }

  /** Non-empty runs of atom characters joined by single dots. */
  predicate DotAtoms(s: string) {
    |s| >= 1 && s[0] != '.' && s[|s| - 1] != '.'
    && (forall i :: 0 <= i < |s| ==> s[i] == '.' || EmailAtomChar(s[i]))
    && (forall i :: 0 < i < |s| && s[i] == '.' ==> s[i - 1] != '.')
  }

  /** The local part: dot atoms, at most 64 long. */
  predicate EmailLocalPartOk(l: string) {
    |l| <= 64 && DotAtoms(l)
  }

  /** The domain: dot atoms whose labels neither start nor end with `-`, at
      most 63 characters per label and 255 in all. */
  predicate EmailDomainOk(d: string) {
    |d| <= 255 && DotAtoms(d)
    && (forall i :: 0 <= i < |d| && d[i] == '-' ==> 0 < i < |d| - 1 && d[i - 1] != '.' && d[i + 1] != '.')
    && (forall i :: 0 <= i <= |d| - 64 ==> DotWithin(d, i))
  }

  /** A dot among the 64 characters from position `i`: no label reaches
      64 characters there. */
  predicate DotWithin(d: string, i: nat)
    requires i + 64 <= |d|
  {
    '.' in d[i..i + 64]
  }

  /** `@Email`: the empty text passes (`@NotBlank` is what refuses it);
      otherwise the text splits at its last `@` into a valid local part and a
      valid domain. */
  predicate IsWellFormedEmail(e: string) {
    e == [] ||
    var at := LastIndexOf(e, '@');
    at.Some? && EmailLocalPartOk(e[..at.value]) && EmailDomainOk(e[at.value + 1..])
  }

  /** A bare word and an empty local part are refused. */
  lemma EmailNeedsLocalPart()
    ensures !IsWellFormedEmail("abc")
    ensures !IsWellFormedEmail("@b.c")
  {
    assert LastIndexOf("abc", '@').None?;
    assert LastIndexOf("@b.c", '@') == Some(0);
  }

  /** A doubled dot in the local part is refused. */
  lemma EmailRefusesDoubledDot()
    ensures !IsWellFormedEmail("a..b@c")
  {
    assert LastIndexOf("a..b@c", '@') == Some(4);
    var l := ("a..b@c")[..4];
    assert l[1] == '.' && l[2] == '.';
  }

  /** A trailing dot and a label that starts with `-` are refused. */
  lemma EmailRefusesBadDomain()
    ensures !IsWellFormedEmail("a@b.")
    ensures !IsWellFormedEmail("a@-b.c")
  {
    assert LastIndexOf("a@b.", '@') == Some(1);
    assert LastIndexOf("a@-b.c", '@') == Some(1);
  }

  /** Dotted local part and domain are accepted. */
  lemma EmailAcceptsDottedParts()
    ensures IsWellFormedEmail("a.b@c.d")
  {
    assert LastIndexOf("a.b@c.d", '@') == Some(3);
    assert ("a.b@c.d")[..3] == "a.b" && ("a.b@c.d")[4..] == "c.d";
  }

  /** A host name without a dot is accepted. */
  lemma EmailAcceptsBareHost()
    ensures IsWellFormedEmail("a@host")
  {
    assert LastIndexOf("a@host", '@') == Some(1);
    assert ("a@host")[..1] == "a" && ("a@host")[2..] == "host";
  }

  datatype User = User(
    id: Id,
    username: string,
    password: string,
    email: string,
    userPhoto: Option<string>,
    createdAt: Option<Time>,
    updatedAt: Option<Time>,
    displayName: Option<string>,
    profileImage: Option<string>,
    bio: Option<string>,
    phoneNumber: Option<string>,
    isOnline: Option<bool>,
    isActive: Option<bool>,
    lastSeen: Option<Time>,
    status: Option<string>,
    privacySettings: Option<string>,
    notificationEnabled: Option<bool>,
    twoFactorEnabled: Option<bool>)
  {
    function SetOnline(now: Time): User {
      this.(isOnline := Some(true), status := Some(STATUS_ONLINE), lastSeen := Some(now))
    }

    function SetOffline(now: Time): User {
      this.(isOnline := Some(false), status := Some(STATUS_OFFLINE), lastSeen := Some(now))
    }

    function SetAway(now: Time): User {
      this.(status := Some(STATUS_AWAY), lastSeen := Some(now))
    }

    function SetBusy(now: Time): User {
      this.(status := Some(STATUS_BUSY), lastSeen := Some(now))
    }

    /** `Boolean.TRUE.equals(isOnline)`: `null` counts as offline. */
    predicate IsCurrentlyOnline() { isOnline == Some(true) }

    /** `Boolean.TRUE.equals(isActive)`: `null` counts as inactive. */
    predicate IsCurrentlyActive() { isActive == Some(true) }

    function DisplayNameOrUsername(): (r: string)
      ensures displayName.Some? && displayName.value != [] ==> r == displayName.value
      ensures displayName.None? || displayName.value == [] ==> r == username
    {
      if displayName.Some? && displayName.value != [] then displayName.value else username
    }

    predicate HasProfileImage() { profileImage.Some? && profileImage.value != [] }
    predicate HasBio() { bio.Some? && bio.value != [] }
    predicate HasPhoneNumber() { phoneNumber.Some? && phoneNumber.value != [] }

    predicate IsNotificationEnabled() { notificationEnabled == Some(true) }
    predicate IsTwoFactorEnabled() { twoFactorEnabled == Some(true) }

    predicate IsPrivacyPublic() { privacySettings == Some(PRIVACY_PUBLIC) }
    predicate IsPrivacyFriends() { privacySettings == Some(PRIVACY_FRIENDS) }
    predicate IsPrivacyPrivate() { privacySettings == Some(PRIVACY_PRIVATE) }

    /** `@PrePersist onCreate()`: stamps both timestamps and replaces each
        `null` among the defaulted fields by its default. */
    function OnCreate(now: Time): User {
      this.(createdAt := Some(now), updatedAt := Some(now)).WithDefaultFlags().WithDefaultPreferences().WithDefaultLabels()
    }

    /** `onCreate`'s defaults for the account flags. */
    function WithDefaultFlags(): User {
      this.(isOnline := if isOnline.None? then Some(false) else isOnline,
            isActive := if isActive.None? then Some(true) else isActive)
    }

    /** `onCreate`'s defaults for the preference flags. */
    function WithDefaultPreferences(): User {
      this.(notificationEnabled := if notificationEnabled.None? then Some(true) else notificationEnabled,
            twoFactorEnabled := if twoFactorEnabled.None? then Some(false) else twoFactorEnabled)
    }

    /** `onCreate`'s defaults for the two labels. */
    function WithDefaultLabels(): User {
      this.(status := if status.None? then Some(STATUS_OFFLINE) else status,
            privacySettings := if privacySettings.None? then Some(PRIVACY_PUBLIC) else privacySettings)
    }

    /** Every field that `onCreate` defaults holds a value. */
    predicate HasDefaults() {
      isOnline.Some? && isActive.Some? && notificationEnabled.Some? && twoFactorEnabled.Some?
      && status.Some? && privacySettings.Some?
    }

    /** `@PreUpdate onUpdate()`. */
    function OnUpdate(now: Time): User {
      this.(updatedAt := Some(now))
    }

    /** The Bean Validation constraints on the credential columns, lengths
        counted in UTF-16 units: username non-blank and 3 to 50 long,
        password non-blank and at least 6 long, email non-blank and
        well formed. */
    predicate SatisfiesConstraints() {
      !IsBlank(username) && 3 <= Utf16Length(username) <= 50
      && !IsBlank(password) && Utf16Length(password) >= 6
      && !IsBlank(email) && IsWellFormedEmail(email)
    }
  }

  /** `new User()`: every field `null` except those with a declared initializer. */
  function EmptyUser(): (u: User)
    ensures u.HasDefaults() && u.IsCurrentlyActive() && !u.IsCurrentlyOnline()
    ensures u.userPhoto.None? && u.createdAt.None?
  {
    User(0, "", "", "", None, None, None, None, None, None, None, Some(false), Some(true), None,
         Some(STATUS_OFFLINE), Some(PRIVACY_PUBLIC), Some(true), Some(false))
  }

  // ---------------------------------------------------------------------------
  // Properties of the helpers
  // ---------------------------------------------------------------------------

  /** `setOnline`/`setOffline` set the flag and the matching status; `setAway` and
      `setBusy` keep the flag; all four stamp `lastSeen` and touch nothing else. */
  lemma PresenceRules(u: User, now: Time)
    ensures u.SetOnline(now).IsCurrentlyOnline() && u.SetOnline(now).status == Some(STATUS_ONLINE)
    ensures !u.SetOffline(now).IsCurrentlyOnline() && u.SetOffline(now).status == Some(STATUS_OFFLINE)
    ensures u.SetAway(now).isOnline == u.isOnline && u.SetAway(now).status == Some(STATUS_AWAY)
    ensures u.SetBusy(now).isOnline == u.isOnline && u.SetBusy(now).status == Some(STATUS_BUSY)
    ensures u.SetOnline(now).lastSeen == u.SetOffline(now).lastSeen == Some(now)
    ensures u.SetAway(now).lastSeen == u.SetBusy(now).lastSeen == Some(now)
    ensures u.SetOnline(now).(isOnline := u.isOnline, status := u.status, lastSeen := u.lastSeen) == u
    ensures u.SetOffline(now).(isOnline := u.isOnline, status := u.status, lastSeen := u.lastSeen) == u
    ensures u.SetAway(now).(status := u.status, lastSeen := u.lastSeen) == u
    ensures u.SetBusy(now).(status := u.status, lastSeen := u.lastSeen) == u
  {
  }

  /** Going offline undoes going online, up to the `lastSeen` stamp. */
  lemma OfflineUndoesOnline(u: User, t1: Time, t2: Time)
    requires u.isOnline == Some(false) && u.status == Some(STATUS_OFFLINE)
    ensures u.SetOnline(t1).SetOffline(t2) == u.(lastSeen := Some(t2))
  {
  }

  /** At most one privacy predicate holds. */
  lemma PrivacyExclusive(u: User)
    ensures !(u.IsPrivacyPublic() && u.IsPrivacyFriends())
    ensures !(u.IsPrivacyPublic() && u.IsPrivacyPrivate())
    ensures !(u.IsPrivacyFriends() && u.IsPrivacyPrivate())
  {
  }

  /** `onCreate` stamps both timestamps, fills each `null` defaulted field with its
      default, and never overwrites a value that is already there. */
  lemma OnCreateDefaults(u: User, now: Time)
    ensures var c := u.OnCreate(now);
      && c.createdAt == Some(now) && c.updatedAt == Some(now)
      && c.HasDefaults()
      && (u.isOnline.Some? ==> c.isOnline == u.isOnline)
      && (u.isActive.Some? ==> c.isActive == u.isActive)
      && (u.notificationEnabled.Some? ==> c.notificationEnabled == u.notificationEnabled)
      && (u.twoFactorEnabled.Some? ==> c.twoFactorEnabled == u.twoFactorEnabled)
      && (u.status.Some? ==> c.status == u.status)
      && (u.privacySettings.Some? ==> c.privacySettings == u.privacySettings)
      && (u.isOnline.None? ==> !c.IsCurrentlyOnline())
      && (u.isActive.None? ==> c.IsCurrentlyActive())
      && (u.notificationEnabled.None? ==> c.IsNotificationEnabled())
      && (u.twoFactorEnabled.None? ==> !c.IsTwoFactorEnabled())
      && (u.status.None? ==> c.status == Some(STATUS_OFFLINE))
      && (u.privacySettings.None? ==> c.IsPrivacyPublic())
      && c.(createdAt := u.createdAt, updatedAt := u.updatedAt, isOnline := u.isOnline, isActive := u.isActive,
            notificationEnabled := u.notificationEnabled, twoFactorEnabled := u.twoFactorEnabled,
            status := u.status, privacySettings := u.privacySettings) == u
  {
  }

  /** `onCreate` leaves a row that already holds every default unchanged apart
      from its timestamps. */
  lemma OnCreateIdempotent(u: User, t1: Time, t2: Time)
    ensures u.OnCreate(t1).OnCreate(t2) == u.OnCreate(t2)
  {
  }

  // ---------------------------------------------------------------------------
  // The entity object: built by setters, stamped by the lifecycle hooks
  // ---------------------------------------------------------------------------

  class ManagedUser {
    var id: Id
    var username: string
    var password: string
    var email: string
    var userPhoto: Option<string>
    var createdAt: Option<Time>
    var updatedAt: Option<Time>
    var displayName: Option<string>
    var profileImage: Option<string>
    var bio: Option<string>
    var phoneNumber: Option<string>
    var isOnline: Option<bool>
    var isActive: Option<bool>
    var lastSeen: Option<Time>
    var status: Option<string>
    var privacySettings: Option<string>
    var notificationEnabled: Option<bool>
    var twoFactorEnabled: Option<bool>

    function State(): User
      reads this
    {
      User(id, username, password, email, userPhoto, createdAt, updatedAt, displayName, profileImage,
           bio, phoneNumber, isOnline, isActive, lastSeen, status, privacySettings,
           notificationEnabled, twoFactorEnabled)
    }

    /** Wraps the given field values (`new User()` is `ManagedUser(EmptyUser())`). */
    constructor (u: User)
      ensures State() == u
    {
      id := u.id;
      username := u.username;
      password := u.password;
      email := u.email;
      userPhoto := u.userPhoto;
      createdAt := u.createdAt;
      updatedAt := u.updatedAt;
      displayName := u.displayName;
      profileImage := u.profileImage;
      bio := u.bio;
      phoneNumber := u.phoneNumber;
      isOnline := u.isOnline;
      isActive := u.isActive;
      lastSeen := u.lastSeen;
      status := u.status;
      privacySettings := u.privacySettings;
      notificationEnabled := u.notificationEnabled;
      twoFactorEnabled := u.twoFactorEnabled;
    }

    method SetOnline(now: Time)
      modifies this
      ensures State() == old(State()).SetOnline(now)
    {
      isOnline := Some(true);
      status := Some(STATUS_ONLINE);
      lastSeen := Some(now);
    }

    method SetOffline(now: Time)
      modifies this
      ensures State() == old(State()).SetOffline(now)
    {
      isOnline := Some(false);
      status := Some(STATUS_OFFLINE);
      lastSeen := Some(now);
    }

    method SetAway(now: Time)
      modifies this
      ensures State() == old(State()).SetAway(now)
    {
      status := Some(STATUS_AWAY);
      lastSeen := Some(now);
    }

    method SetBusy(now: Time)
      modifies this
      ensures State() == old(State()).SetBusy(now)
    {
      status := Some(STATUS_BUSY);
      lastSeen := Some(now);
    }

    method OnCreate(now: Time)
      modifies this
      ensures State() == old(State()).OnCreate(now)
    {
      createdAt := Some(now);
      updatedAt := Some(now);
      FillDefaultFlags();
      FillDefaultPreferences();
      FillDefaultLabels();
    }

    method FillDefaultFlags()
      modifies this
      ensures State() == old(State()).WithDefaultFlags()
    {
      if isOnline.None? { isOnline := Some(false); }
      if isActive.None? { isActive := Some(true); }
    }

    method FillDefaultPreferences()
      modifies this
      ensures State() == old(State()).WithDefaultPreferences()
    {
      if notificationEnabled.None? { notificationEnabled := Some(true); }
      if twoFactorEnabled.None? { twoFactorEnabled := Some(false); }
    }

    method FillDefaultLabels()
      modifies this
      ensures State() == old(State()).WithDefaultLabels()
    {
      if status.None? { status := Some(STATUS_OFFLINE); }
      if privacySettings.None? { privacySettings := Some(PRIVACY_PUBLIC); }
    }

    method OnUpdate(now: Time)
      modifies this
      ensures State() == old(State()).OnUpdate(now)
    {
      updatedAt := Some(now);
    }
  }
}
