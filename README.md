# MyMedia: a Dafny model of the player's core logic

MyMedia is an Android music player with local user accounts. Its activities
are mostly Android glue. Underneath the glue sit a few small pieces of
sequential logic, and this project models them and proves what they promise.

- **Password utilities** (`PasswordUtil`). Lower-case hex encoding of Java
  signed bytes and its inverse, salt generation, and salted SHA-256 hashing.
- **Session store** (`SessionManager`). The logged-in user kept under two
  keys of the "session" preferences.
- **Registration and login.** The click handlers of `RegisterActivity` and
  `LoginActivity`: ordered checks with early returns over an in-memory
  `users` table with a unique username, then a session write.
- **Playback** (`MainActivity`):
  - the play queue with its index and queue mode;
  - the completion listener and the dual-purpose skip buttons;
  - the seek bar, play/pause, the mute toggle, the volume bar and the speed
    index;
  - the queue dialog's header and its remove button.
- **Library filter** (`doFilter`). A trimmed, lower-cased query against a
  track's title, artist and album.
- **Playlist names.** The create and rename dialogs reject blank names and
  case-insensitive duplicates. Rename does not compare a playlist with
  itself.
- **Display helpers.** `displayFor`, `toMediaItems` and `formatMs`.

Modules, one per file:

| file | module | what it holds |
|---|---|---|
| `wrappers.dfy` | `Wrappers` | `Option` and `Result` |
| `java_text.dfy` | `JavaText` | `String.trim`, ASCII `toLowerCase`/`equalsIgnoreCase`, `contains`, Java's truncating `/` and `%`, the `(int)` cast, `%d` and `%02d` |
| `password_util.dfy` | `PasswordUtil` | `toHex`, `fromHex`, `generateSaltHex`, `hashPassword` |
| `session.dfy` | `Session` | the preference map and class `SessionManager` |
| `user_store.dfy` | `UserStore` | user rows, `findByUsername`, class `UserTable` with ABORT insertion |
| `register.dfy` | `Register` | the register handler |
| `login.dfy` | `Login` | the logged-in shortcut and the login handler |
| `media.dfy` | `Media` | `MediaItem`, `PlaylistItemEntity`, `displayFor`, `toMediaItems`, row removal |
| `library_filter.dfy` | `LibraryFilter` | `doFilter`'s matching rule |
| `transport.dfy` | `Transport` | the playback state as a value, with one function per handler |
| `transport_lemmas.dfy` | `TransportLemmas` | what the playback handlers promise |
| `main_activity.dfy` | `MainScreen` | class `MainActivity`, whose fields the handlers update in place |
| `playlists.dfy` | `Playlists` | the name checks and class `PlaylistsDialog` |
| `clock.dfy` | `Clock` | `formatMs` |

How the pieces fit:

- **Activity classes.** Each handler of `MainActivity` is a method on the
  class's fields. Its `ensures` says that the new state is the `Transport`
  function of the old state. The lemmas in `TransportLemmas`, proved about
  those functions, therefore hold of the class.
- **Library calls as parameters.** SHA-256 is the parameter `digest`.
  SecureRandom is the 16 bytes `random`. `MediaPlayer.create` is `open`,
  which yields the track's duration when it loads and `None` when it does
  not. The clock is `now`. The result of `setPlaybackParams` is the boolean
  `supported`.
- **The database.** It is an in-memory table. AUTOINCREMENT is a counter
  that never hands out an id twice.
- **Java integers.** A Java byte is the integer range [-128, 127]. Java's
  `/` and `%` truncate toward zero, and the `(int)` cast of a `long` keeps its
  low 32 bits; `JavaText` writes all of these out.

Behaviours of the code worth knowing:

- **Login messages.** The login handler tells "user not found" apart from
  "invalid credentials". It does not give one generic message.
- **Speed button.** It advances the speed index whenever a player exists,
  even when the device refuses the new rate. Only the player's rate stays
  unchanged then (`Transport.CycleSpeed`).
- **Mute button.** It is a toggle, not an idempotent "mute". Two presses
  from the muted state end muted at volume 0 (`TransportLemmas.UnmuteThenMute`).
- **New player's rate.** A newly created player runs at normal speed, while
  `speedIndex` keeps its old value (`TransportLemmas.NewTrackResetsRate`).
- **Queue removal.** Removing a queue entry does not adjust `queueIndex`.
  `MainScreen.MainActivity.RemoveFromQueue` does the same; the corrected
  removal is `Transport.RemoveFromQueue` (see "Findings").
- **Volume bar.** Its listener reacts to every progress change, including
  the mute button's own `setProgress`. Either way the net state is the one
  the mute button sets, so the model keeps that state.
- **Null titles.** `doFilter` checks the title for null, but no item is ever
  built with a null title. The model treats the title as always present.

## Model

| member | source | states |
|---|---|---|
| `PasswordUtil.ToJByte` | app/src/main/java/com/example/mymediaplayer/data/PasswordUtil.java:40-41 | the `(byte)` cast agrees with its argument modulo 256 and leaves values in [-128, 127] unchanged |
| `PasswordUtil.NibblesOfByte` | app/src/main/java/com/example/mymediaplayer/data/PasswordUtil.java:31 | `(b >> 4) & 0xF` and `b & 0xF` are both in [0, 15] and together give the byte's unsigned value, negative bytes included |
| `PasswordUtil.HexOfShape` | app/src/main/java/com/example/mymediaplayer/data/PasswordUtil.java:28-34 | the encoding has exactly two chars per byte, and chars 2k and 2k+1 are byte k's high and low nibble digits |
| `PasswordUtil.HexOfAt` | app/src/main/java/com/example/mymediaplayer/data/PasswordUtil.java:28-34 | char i of the encoding is the high nibble digit of byte i / 2 for even i and its low nibble digit for odd i |
| `PasswordUtil.HexOfIsLowerHex` | app/src/main/java/com/example/mymediaplayer/data/PasswordUtil.java:7 | every char of the encoding is one of "0123456789abcdef" |
| `PasswordUtil.ToHex` | app/src/main/java/com/example/mymediaplayer/data/PasswordUtil.java:28-34 | the StringBuilder loop returns the specified encoding of the whole array: twice as long as the input and lower-case hex only |
| `PasswordUtil.FromHex` | app/src/main/java/com/example/mymediaplayer/data/PasswordUtil.java:36-44 | it fails exactly on odd-length input, with the out-of-bounds index `len`; otherwise it returns `len / 2` bytes, byte k decoded from chars 2k and 2k+1 |
| `PasswordUtil.DecodeOfHex` | app/src/main/java/com/example/mymediaplayer/data/PasswordUtil.java:28-44 | round trip: `fromHex(toHex(b)) == b` for every byte sequence |
| `PasswordUtil.HexOfDecode` | app/src/main/java/com/example/mymediaplayer/data/PasswordUtil.java:36-44 | round trip: `toHex(fromHex(s)) == s` for every even-length lower-case hex string |
| `PasswordUtil.HexOfDecodePair` | app/src/main/java/com/example/mymediaplayer/data/PasswordUtil.java:31-41 | the byte decoded from chars 2k and 2k+1 of lower-case hex re-encodes to exactly those two chars |
| `PasswordUtil.UpperCaseDoesNotRoundTrip` | app/src/main/java/com/example/mymediaplayer/data/PasswordUtil.java:40-41 | upper-case digits are accepted ("AB" decodes to byte -85) but re-encode in lower case, so the second round trip needs lower-case input |
| `PasswordUtil.GenerateSaltHex` | app/src/main/java/com/example/mymediaplayer/data/PasswordUtil.java:11-15 | a salt from 16 random bytes is 32 lower-case hex chars and decodes back to those same bytes |
| `PasswordUtil.HashHexShape` | app/src/main/java/com/example/mymediaplayer/data/PasswordUtil.java:17-26 | with a 32-byte digest and an even-length salt, hashing succeeds and yields 64 lower-case hex chars |
| `PasswordUtil.HashOfGeneratedSalt` | app/src/main/java/com/example/mymediaplayer/data/PasswordUtil.java:17-26 | hashing under a salt made from random bytes digests exactly those bytes followed by the UTF-8 bytes of the password |
| `PasswordUtil.HashPassword` | app/src/main/java/com/example/mymediaplayer/data/PasswordUtil.java:17-26 | the method returns the specified salted hash, a function of (digest, password, salt) alone; a salt that fails to decode makes it fail with that error |
| `Session.LoginThenRead` | app/src/main/java/com/example/mymediaplayer/data/SessionManager.java:25-27 | after `login(id, name)` the user is logged in, `getUserId() == id` and `getUsername() == name` |
| `Session.LoginOverwrites` | app/src/main/java/com/example/mymediaplayer/data/SessionManager.java:25-27 | a second login leaves exactly the store the second one alone would leave |
| `Session.LogoutThenRead` | app/src/main/java/com/example/mymediaplayer/data/SessionManager.java:17-31 | after logout the user is not logged in, the id reads as -1 and the name as "" |
| `Session.LogoutIdempotent` | app/src/main/java/com/example/mymediaplayer/data/SessionManager.java:29-31 | logging out twice is the same as logging out once |
| `Session.LoggedInIsKeyPresence` | app/src/main/java/com/example/mymediaplayer/data/SessionManager.java:13-19 | only the presence of the key decides `isLoggedIn`: a stored id of -1, the default, still counts as logged in |
| `Session.SessionManager.constructor` | app/src/main/java/com/example/mymediaplayer/data/SessionManager.java:9-11 | the manager opens the store with whatever it already held |
| `Session.SessionManager.Login` | app/src/main/java/com/example/mymediaplayer/data/SessionManager.java:25-27 | both keys are written; afterwards the getters read back the given id and name |
| `Session.SessionManager.Logout` | app/src/main/java/com/example/mymediaplayer/data/SessionManager.java:29-31 | the store is cleared; afterwards the getters give the defaults |
| `UserStore.Find` | app/src/main/java/com/example/mymediaplayer/data/UserDao.java:10-11 | a found row is in the table and has exactly that username; nothing is found iff no row has it |
| `UserStore.FindAppended` | app/src/main/java/com/example/mymediaplayer/data/UserDao.java:10-17 | after a row with a fresh username is inserted, looking that name up finds exactly the new row |
| `UserStore.FindAppendedOther` | app/src/main/java/com/example/mymediaplayer/data/UserDao.java:10-17 | inserting a row does not change what any other username finds |
| `UserStore.FindIsCaseSensitive` | app/src/main/java/com/example/mymediaplayer/data/UserDao.java:10 | the lookup compares exactly: "alice" is found, "ALICE" is not |
| `UserStore.FoundSaltWellFormed` | app/src/main/java/com/example/mymediaplayer/LoginActivity.java:48-53 | in a table whose salts are all 32 lower-case hex chars, the row a lookup finds has such a salt |
| `UserStore.UserTable.constructor` | app/src/main/java/com/example/mymediaplayer/data/UserEntity.java:8-14 | a new table is empty, and no row id has been handed out yet |
| `UserStore.UserTable.Insert` | app/src/main/java/com/example/mymediaplayer/data/UserDao.java:16-17 | with ABORT, a taken username fails and writes nothing; otherwise exactly one row is appended under the next row id, which is returned, and the usernames stay unique |
| `Register.RegisterVerdictIff` | app/src/main/java/com/example/mymediaplayer/RegisterActivity.java:38-52 | each message is given exactly when its check is the first to fail: a blank username or an empty password or confirmation, then a mismatch, then a taken name |
| `Register.RegisterTwiceTaken` | app/src/main/java/com/example/mymediaplayer/RegisterActivity.java:49-58 | once a name is registered, registering it again (any spacing around it) is refused as taken |
| `Register.Register` | app/src/main/java/com/example/mymediaplayer/RegisterActivity.java:37-64 | a refused registration leaves the table and the session unchanged; a successful one appends exactly one row (trimmed name, fresh salt, hash of the untrimmed password) under the next id and logs in as that id and name |
| `Login.OnCreate` | app/src/main/java/com/example/mymediaplayer/LoginActivity.java:29-32 | the screen goes straight to the main activity exactly when a session exists |
| `Login.LoginNeverHashFails` | app/src/main/java/com/example/mymediaplayer/LoginActivity.java:53-57 | with every stored salt well formed, the hashing step never throws |
| `Login.CheckPassword` | app/src/main/java/com/example/mymediaplayer/LoginActivity.java:53-57 | the last check never reports blank fields or an unknown name, and it fails with a hash error exactly when the stored salt has odd length |
| `Login.LoginRefusalsIff` | app/src/main/java/com/example/mymediaplayer/LoginActivity.java:41-52 | the two refusals hold exactly under their conditions: blank fields (a username that trims to nothing, or no password), then a name no row has |
| `Login.LoginCredentialsIff` | app/src/main/java/com/example/mymediaplayer/LoginActivity.java:48-59 | with a row found, a wrong password (told apart from an unknown name) holds exactly on a hash mismatch and success exactly on a match; success logs in as the stored row's id and name |
| `Login.RegisterThenLogin` | app/src/main/java/com/example/mymediaplayer/LoginActivity.java:53-58 | logging in with the name and password just registered succeeds, as the new user |
| `Login.RegisterThenWrongPassword` | app/src/main/java/com/example/mymediaplayer/LoginActivity.java:53-57 | under the same salt, a password whose digest differs from the registered one is refused as invalid credentials |
| `Login.Login` | app/src/main/java/com/example/mymediaplayer/LoginActivity.java:41-60 | the handler returns the specified outcome; the session changes only on success, to the found user, and the table is only read |
| `Media.DisplayForShape` | app/src/main/java/com/example/mymediaplayer/MainActivity.java:1047-1050 | the display text starts with the title; it is the bare title exactly when the artist is null or empty, and otherwise ends with the artist after " — " |
| `Media.ToMediaItems` | app/src/main/java/com/example/mymediaplayer/MainActivity.java:1080-1088 | one item per stored row, in order; item k is numbered k and carries row k's title, artist, album, date and uri |
| `Media.SaveThenLoad` | app/src/main/java/com/example/mymediaplayer/MainActivity.java:1035-1045 | saving an item to a playlist and reading it back gives the same track, renumbered and dated by the save, with the same display text |
| `Media.RemoveAt` | app/src/main/java/com/example/mymediaplayer/MainActivity.java:549-553 | removal at a position drops exactly that entry: one shorter, the others in order, the multiset less that one entry |
| `LibraryFilter.FilterBy` | app/src/main/java/com/example/mymediaplayer/MainActivity.java:676-683 | the filter loop keeps no more items than the library has, and only matching ones |
| `LibraryFilter.SelectMatching` | app/src/main/java/com/example/mymediaplayer/MainActivity.java:676-683 | the loop over the library adds exactly the items the filter keeps, in library order |
| `LibraryFilter.FilterByCounts` | app/src/main/java/com/example/mymediaplayer/MainActivity.java:676-683 | a matching item is kept as often as it occurs in the library; an item that does not match is never kept |
| `LibraryFilter.FilterByMembership` | app/src/main/java/com/example/mymediaplayer/MainActivity.java:676-683 | an item is shown iff it is in the library and matches |
| `LibraryFilter.FilterByAppend` | app/src/main/java/com/example/mymediaplayer/MainActivity.java:676-683 | order is kept: filtering a concatenation is the concatenation of the filtered parts |
| `LibraryFilter.FilterByAllOrNone` | app/src/main/java/com/example/mymediaplayer/MainActivity.java:676-683 | a library whose items all match is shown whole; one where none match is shown empty |
| `LibraryFilter.BlankQueryShowsAll` | app/src/main/java/com/example/mymediaplayer/MainActivity.java:673-675 | a null query, or one that trims to nothing, shows the whole library in order |
| `LibraryFilter.NonBlankQueryFilters` | app/src/main/java/com/example/mymediaplayer/MainActivity.java:673-683 | any other query shows exactly the matching items for its trimmed, lower-cased form |
| `LibraryFilter.QueryCaseIrrelevant` | app/src/main/java/com/example/mymediaplayer/MainActivity.java:673 | a query and its lower-cased form select the same items |
| `LibraryFilter.MatchExample` | app/src/main/java/com/example/mymediaplayer/MainActivity.java:673-683 | the query " ROCK " finds a track by "The Rockets" through its artist |
| `JavaText.TrimStart` | app/src/main/java/com/example/mymediaplayer/RegisterActivity.java:38 | the leading part of `trim`: a suffix of the input that starts with a char above U+0020, and everything cut off is at most U+0020 |
| `JavaText.TrimEnd` | app/src/main/java/com/example/mymediaplayer/RegisterActivity.java:38 | the trailing part of `trim`: a prefix of the input that ends with a char above U+0020, and everything cut off is at most U+0020 |
| `JavaText.TrimEmptyIff` | app/src/main/java/com/example/mymediaplayer/RegisterActivity.java:38-41 | a string trims to empty exactly when every char of it is at most U+0020 |
| `JavaText.TrimIsSlice` | app/src/main/java/com/example/mymediaplayer/LoginActivity.java:42 | the trimmed string is a contiguous slice of the input |
| `JavaText.ToLower` | app/src/main/java/com/example/mymediaplayer/MainActivity.java:673 | lower-casing keeps the length and maps each char on its own |
| `JavaText.EqualImpliesEqualsIgnoreCase` | app/src/main/java/com/example/mymediaplayer/MainActivity.java:862 | equal names are also equal ignoring case, so the case-insensitive check also rules out exact duplicates |
| `JavaText.EqualsIgnoreCaseExample` | app/src/main/java/com/example/mymediaplayer/MainActivity.java:862 | "Rock" equals "rOCK" ignoring case and differs from "Rocks" |
| `JavaText.ContainsIff` | app/src/main/java/com/example/mymediaplayer/MainActivity.java:678-680 | `contains` holds exactly when the substring occurs at some offset |
| `JavaText.JavaDiv` | app/src/main/java/com/example/mymediaplayer/MainActivity.java:422-423 | Java's `/` truncates toward zero: for a non-negative dividend the quotient q is non-negative with q*b <= a < q*b + b; for a negative one it is at most 0 with q*b - b < a <= q*b |
| `JavaText.JavaRem` | app/src/main/java/com/example/mymediaplayer/MainActivity.java:424 | Java's `%` completes its quotient to the dividend and takes the dividend's sign |
| `JavaText.ToInt32` | app/src/main/java/com/example/mymediaplayer/RegisterActivity.java:57 | the `(int)` cast of a row id is a 32-bit value congruent to it modulo 2^32, and leaves a value already in range unchanged |
| `JavaText.Digits` | app/src/main/java/com/example/mymediaplayer/MainActivity.java:425 | `%d` of a natural number is at least one char, and all its chars are decimal digits |
| `JavaText.DigitsRoundTrip` | app/src/main/java/com/example/mymediaplayer/MainActivity.java:425 | reading the digits printed by `%d` back gives the number |
| `Clock.FormatMsReadBack` | app/src/main/java/com/example/mymediaplayer/MainActivity.java:421-426 | for a non-negative time the text is the whole minutes, a colon and exactly two digits below 60, and reading it back gives the whole seconds |
| `Clock.SmallNegativeIsZero` | app/src/main/java/com/example/mymediaplayer/MainActivity.java:421-426 | a negative time above -1 s, such as an unknown duration of -1, shows as "0:00" |
| `Clock.NegativeSecondsOnly` | app/src/main/java/com/example/mymediaplayer/MainActivity.java:421-426 | between -59 s and -1 s the minutes truncate to 0 and only the seconds carry the sign: -2 s shows as "0:-2" |
| `Clock.NegativeWholeMinute` | app/src/main/java/com/example/mymediaplayer/MainActivity.java:421-426 | a whole negative minute carries the sign on the minutes only: -60 s shows as "-1:00" |
| `Clock.NegativeMinuteShowsSignTwice` | app/src/main/java/com/example/mymediaplayer/MainActivity.java:421-426 | with a negative minute and negative seconds left over the sign shows twice: -61 s shows as "-1:-1" |
| `Transport.Initial` | app/src/main/java/com/example/mymediaplayer/MainActivity.java:73-109 | the state after onCreate keeps the invariant: not in queue mode, an empty queue, not muted, and the bundled player, if any, prepared but not started |
| `Transport.PlayUri` | app/src/main/java/com/example/mymediaplayer/MainActivity.java:354-366 | a player exists afterwards iff the track loads; it is then that track, at position 0, playing, at normal speed |
| `TransportLemmas.SkipNextMoves` | app/src/main/java/com/example/mymediaplayer/MainActivity.java:1060-1068 | when allowed, skipping ahead moves the index up by exactly one onto an existing entry and loads it; the queue is untouched, and otherwise nothing changes |
| `TransportLemmas.SkipPrevMoves` | app/src/main/java/com/example/mymediaplayer/MainActivity.java:1070-1078 | when allowed, skipping back moves the index down by exactly one onto an existing entry and loads it; the queue is untouched, and otherwise nothing changes |
| `TransportLemmas.NextThenPrev` | app/src/main/java/com/example/mymediaplayer/MainActivity.java:1052-1078 | skipping ahead then back returns to the same entry, loaded afresh |
| `TransportLemmas.PrevThenNext` | app/src/main/java/com/example/mymediaplayer/MainActivity.java:1052-1078 | skipping back then ahead returns to the same entry, loaded afresh |
| `TransportLemmas.StartQueueSpec` | app/src/main/java/com/example/mymediaplayer/MainActivity.java:396-409 | an empty list changes nothing; otherwise the queue is the list, the index 0, queue mode on, the first entry loaded, and skipping ahead is possible iff the list has a second entry |
| `TransportLemmas.CompletionSpec` | app/src/main/java/com/example/mymediaplayer/MainActivity.java:375-392 | with a next entry, completion does what the next button does; otherwise the player stops, the seek bar returns to 0 and queue mode ends with the queue kept |
| `TransportLemmas.CompletionWalksQueue` | app/src/main/java/com/example/mymediaplayer/MainActivity.java:375-384 | k tracks ending in a row, all loading, move from entry i to entry i + k, still in queue mode |
| `TransportLemmas.CompleteTimesUnfold` | app/src/main/java/com/example/mymediaplayer/MainActivity.java:375-384 | k completions in a row are one completion followed by k - 1 more |
| `TransportLemmas.SkipForwardSpec` | app/src/main/java/com/example/mymediaplayer/MainActivity.java:243-255 | the forward button skips iff a next entry exists in queue mode; otherwise it seeks to min(pos + 15000, duration), staying within the track, with the seek bar following |
| `TransportLemmas.SkipBackSpec` | app/src/main/java/com/example/mymediaplayer/MainActivity.java:258-270 | the back button skips iff an earlier entry exists in queue mode; otherwise it seeks to max(pos - 15000, 0), staying within the track, with the seek bar following |
| `TransportLemmas.MuteThenUnmute` | app/src/main/java/com/example/mymediaplayer/MainActivity.java:287-303 | muting saves the volume, silences and sets muted; the following unmute restores the saved volume, and only the saved copy differs from before |
| `TransportLemmas.UnmuteThenMute` | app/src/main/java/com/example/mymediaplayer/MainActivity.java:287-303 | the button is a toggle: from muted, two presses end muted at volume 0 |
| `TransportLemmas.VolumeWhileMuted` | app/src/main/java/com/example/mymediaplayer/MainActivity.java:194-199 | raising the volume bar while muted ends muting, so the next press saves the new volume |
| `TransportLemmas.SpeedCycle` | app/src/main/java/com/example/mymediaplayer/MainActivity.java:306-320 | three presses bring the speed index back; an accepted rate is the one the index names; a refused one leaves the player's rate unchanged while the index still moves |
| `TransportLemmas.NewTrackResetsRate` | app/src/main/java/com/example/mymediaplayer/MainActivity.java:354-366 | a newly loaded track runs at normal speed while the speed index is carried over |
| `TransportLemmas.HeaderMatchesSkips` | app/src/main/java/com/example/mymediaplayer/MainActivity.java:737-754 | the header's buttons are enabled exactly when the skips are allowed, and its "now" line names the entry at the index iff that entry exists in queue mode |
| `TransportLemmas.QueueHandlersKeepValid` | app/src/main/java/com/example/mymediaplayer/MainActivity.java:375-409 | queue start, skips, completion, playing a single row, adding to the queue and both removals keep the invariant: index -1 outside queue mode and non-negative in it, position within [0, duration], volume within [0, max], speed index within the speeds array |
| `TransportLemmas.SkipButtonsKeepValid` | app/src/main/java/com/example/mymediaplayer/MainActivity.java:243-270 | the forward and back buttons keep the invariant, whether they skip or seek |
| `TransportLemmas.ControlsKeepValid` | app/src/main/java/com/example/mymediaplayer/MainActivity.java:228-320 | play/pause, mute, speed, the volume bar and a user seek keep the invariant |
| `TransportLemmas.QueueHandlersKeepNowPlaying` | app/src/main/java/com/example/mymediaplayer/MainActivity.java:375-409 | queue start, the skips, completion, playing a single row and adding to the queue all keep the entry at the index the track the player has loaded, in queue mode |
| `TransportLemmas.ControlsKeepNowPlaying` | app/src/main/java/com/example/mymediaplayer/MainActivity.java:243-320 | the buttons and bars keep the entry at the index and the loaded track the same, in queue mode |
| `TransportLemmas.RemoveAsWrittenLosesCurrent` | app/src/main/java/com/example/mymediaplayer/MainActivity.java:549-553 | as written, for any queue [a, b, c] playing b at index 1 where b and c have different uris, removing entry 0 makes the header show c, the index no longer names the playing track, and skipping ahead is refused |
| `TransportLemmas.RemoveAsWrittenDropsNext` | app/src/main/java/com/example/mymediaplayer/MainActivity.java:375-392 | after that removal, when the playing track finishes, queue mode ends as written and the third track never plays; with the index following its entry the third track plays next |
| `TransportLemmas.RemoveKeepsCurrent` | app/src/main/java/com/example/mymediaplayer/MainActivity.java:549-553 | with the index following its entry, removing any other entry keeps the current entry current and the loaded track at the index |
| `TransportLemmas.RemoveCurrentEntry` | app/src/main/java/com/example/mymediaplayer/MainActivity.java:549-553 | removing the playing entry itself is the same under both versions: the index and the player stay, and the index then names the entry that followed, or nothing when it was the last, with skipping ahead refused |
| `TransportLemmas.RemoveThenSkipSafe` | app/src/main/java/com/example/mymediaplayer/MainActivity.java:1052-1058 | even after removals, an allowed skip always lands on an existing entry |
| `MainScreen.MainActivity.constructor` | app/src/main/java/com/example/mymediaplayer/MainActivity.java:189-225 | onCreate's state: the stream's volume, no queue, and the bundled track prepared but not started if it loaded; the state is valid |
| `MainScreen.MainActivity.CanSkipNext` | app/src/main/java/com/example/mymediaplayer/MainActivity.java:1052-1054 | the guard on the fields is the guard of the state machine |
| `MainScreen.MainActivity.CanSkipPrev` | app/src/main/java/com/example/mymediaplayer/MainActivity.java:1056-1058 | the guard on the fields is the guard of the state machine |
| `MainScreen.MainActivity.PrepareMediaPlayer` | app/src/main/java/com/example/mymediaplayer/MainActivity.java:354-366 | the old player is released; the new one is the loaded track, not started, or none; nothing else changes |
| `MainScreen.MainActivity.PlayUri` | app/src/main/java/com/example/mymediaplayer/MainActivity.java:354-366 | preparing followed by start: only the player changes, to the loaded track playing from 0 |
| `MainScreen.MainActivity.StartQueuePlayback` | app/src/main/java/com/example/mymediaplayer/MainActivity.java:396-409 | the fields change as the state machine's queue start does, and the library is untouched |
| `MainScreen.MainActivity.OnCompletion` | app/src/main/java/com/example/mymediaplayer/MainActivity.java:375-392 | the fields change as the state machine's completion does |
| `MainScreen.MainActivity.SkipToNextInQueue` | app/src/main/java/com/example/mymediaplayer/MainActivity.java:1060-1068 | the fields change as the state machine's skip ahead does |
| `MainScreen.MainActivity.SkipToPreviousInQueue` | app/src/main/java/com/example/mymediaplayer/MainActivity.java:1070-1078 | the fields change as the state machine's skip back does |
| `MainScreen.MainActivity.OnSkipForward` | app/src/main/java/com/example/mymediaplayer/MainActivity.java:243-255 | the fields change as the state machine's forward button does |
| `MainScreen.MainActivity.OnSkipBackward` | app/src/main/java/com/example/mymediaplayer/MainActivity.java:258-270 | the fields change as the state machine's back button does |
| `MainScreen.MainActivity.OnSeekBarChanged` | app/src/main/java/com/example/mymediaplayer/MainActivity.java:273-284 | a user seek moves the loaded player and the bar to the progress, and does nothing without a player |
| `MainScreen.MainActivity.OnPlayPause` | app/src/main/java/com/example/mymediaplayer/MainActivity.java:228-240 | play/pause flips whether the player plays, and does nothing without one |
| `MainScreen.MainActivity.OnMute` | app/src/main/java/com/example/mymediaplayer/MainActivity.java:287-303 | the fields change as the state machine's mute toggle does |
| `MainScreen.MainActivity.OnVolumeChanged` | app/src/main/java/com/example/mymediaplayer/MainActivity.java:194-199 | the stream volume follows the bar, and a non-zero volume ends muting |
| `MainScreen.MainActivity.OnSpeed` | app/src/main/java/com/example/mymediaplayer/MainActivity.java:306-320 | the fields change as the state machine's speed button does |
| `MainScreen.MainActivity.PlayItem` | app/src/main/java/com/example/mymediaplayer/MainActivity.java:492-502 | a tapped row plays on its own and queue mode ends |
| `MainScreen.MainActivity.AddToQueue` | app/src/main/java/com/example/mymediaplayer/MainActivity.java:511-514 | the item goes to the end of the queue; the index and the mode are untouched |
| `MainScreen.MainActivity.RemoveFromQueue` | app/src/main/java/com/example/mymediaplayer/MainActivity.java:549-553 | the fields change as the removal as written does: the entry leaves the queue and the index, the mode and the player stay as they were |
| `MainScreen.MainActivity.LibraryLoaded` | app/src/main/java/com/example/mymediaplayer/MainActivity.java:598-604 | the scanned list becomes the library and its unfiltered view; the playback state is untouched |
| `MainScreen.MainActivity.DoFilter` | app/src/main/java/com/example/mymediaplayer/MainActivity.java:672-686 | the view is rebuilt from the whole library as the filtered view for the query; the library and the playback state are untouched |
| `Playlists.FindClash` | app/src/main/java/com/example/mymediaplayer/MainActivity.java:814-819 | the duplicate loop reports a clash iff some other playlist's name equals the name ignoring case |
| `Playlists.BlankRejected` | app/src/main/java/com/example/mymediaplayer/MainActivity.java:859-860 | a name is refused as blank exactly when it trims to nothing |
| `Playlists.AcceptedName` | app/src/main/java/com/example/mymediaplayer/MainActivity.java:857-868 | an accepted name is the trimmed input: non-empty, with no blank at either end, and equal ignoring case to no other playlist's name |
| `Playlists.CaseVariantRejected` | app/src/main/java/com/example/mymediaplayer/MainActivity.java:1007-1015 | creating "  rock " beside an existing "Rock" is refused as a duplicate |
| `Playlists.RenameToOwnCaseVariant` | app/src/main/java/com/example/mymediaplayer/MainActivity.java:810-820 | renaming "Rock" to "ROCK" is accepted, because the playlist being renamed is left out of the comparison |
| `Playlists.CreateKeepsDistinct` | app/src/main/java/com/example/mymediaplayer/MainActivity.java:857-871 | adding a playlist under an accepted name keeps all names distinct ignoring case |
| `Playlists.RenameKeepsDistinct` | app/src/main/java/com/example/mymediaplayer/MainActivity.java:810-827 | renaming to an accepted name keeps all names distinct ignoring case |
| `Playlists.DeleteKeepsDistinct` | app/src/main/java/com/example/mymediaplayer/MainActivity.java:834-840 | deleting a playlist keeps the remaining names distinct ignoring case |
| `Playlists.PlaylistsDialog.constructor` | app/src/main/java/com/example/mymediaplayer/MainActivity.java:780-782 | the dialog holds the user's loaded playlists and their names side by side |
| `Playlists.PlaylistsDialog.Create` | app/src/main/java/com/example/mymediaplayer/MainActivity.java:857-871 | a refused name changes nothing; an accepted one is inserted under the next row id, cast to int, and listed last in both lists |
| `Playlists.PlaylistsDialog.Rename` | app/src/main/java/com/example/mymediaplayer/MainActivity.java:810-827 | a refused name changes nothing; an accepted one replaces that playlist's name in both lists and nothing else |
| `Playlists.PlaylistsDialog.Delete` | app/src/main/java/com/example/mymediaplayer/MainActivity.java:834-840 | the playlist at the position leaves both lists, and the others keep their order |

## Left out

- User interface: views, dialogs, adapters' rendering, toasts, intents and page navigation. They carry no logic. Sign-out is `Session.SessionManager.Logout`.
- The 500 ms progress refresh and the 200 ms search debounce: timers and scheduling. The seek bar's `setMax` is not modelled either.
- The background MediaStore scan and its thread, which are I/O and threading. Only its hand-over to the UI thread is modelled (`MainScreen.MainActivity.LibraryLoaded`).
- The collator sort by title or artist, which depends on the locale. The recency sort by `dateAdded` is not modelled.
- The storage permission request flow, and the audio picker's result beyond `prepareMediaPlayer`.
- Room, `AppDatabase` and its singleton. The tables live in memory. The foreign keys' cascading deletes are not modelled.
- The playlist detail dialog's item deletion, and the counts `update` and `delete` return. They are database results.
- SHA-256 and SecureRandom are parameters, not implementations. The only thing the model assumes of the digest is that it yields 32 bytes (`PasswordUtil.Produces32Bytes`).
- Case mapping and digit decoding cover ASCII only. `toLowerCase(Locale.ROOT)`, `equalsIgnoreCase` and `Character.digit` treat other Unicode letters and digits as well.
- `Uri.parse` and `Uri.toString` are taken as the identity on the uri string. `getLastPathSegment`, which only sets a title, is not modelled.
- The player is reduced to its uri, position, duration, playing flag and speed index. The float speeds are not modelled, nor that `setPlaybackParams` may start a paused player. A duration of -1 is not modelled, because `open` yields a natural number.
- `Transport.SkipForward`: `pos + 15000` is exact. The model does not capture the 32-bit wrap-around that a position within 15 s of 2^31 ms would cause.
- Row ids beyond 32 bits are cast with `JavaText.ToInt32`, but the database's own 64-bit row-id limit is not modelled.
- `UserStore.UserTable.Insert`: requires the salt to be 32 lower-case hex chars. The database accepts any string, but the only insert in the app passes a fresh salt.
- `MainScreen.MainActivity.OnSeekBarChanged`: requires the progress to lie within [0, duration], the range the bar is given by `setMax`, which is not modelled itself.
- `MainScreen.MainActivity.OnVolumeChanged`: the `audioManager` null checks are left out, and so are volume changes made outside the app.
- `MainScreen.MainActivity.OnMute`: the early return when `audioManager` is null is left out; the model assumes an audio manager exists.
- Dafny strings are sequences of Unicode scalar values, while Java strings are UTF-16 code units. Lone surrogates cannot be represented, so the `?` that `getBytes("UTF-8")` writes for them is not modelled.
- `Playlists.PlaylistsDialog.Create`: it checks against the dialog's list as loaded. An insert rejected because another screen added the same name is not modelled.
- `Playlists.PlaylistsDialog.Rename`: assumes that `update` reports the row as changed, so `names` always follows. The source updates `names` only when the count is positive.
- Creating a playlist from the add-to-playlist dialog runs the same check as `Playlists.CheckName` with no playlist skipped. Its insert of the first item is `Media.PlaylistItemOf`. The fallback title "Unknown" is unreachable, because every item has a title.

## Findings

| source | as written | input that shows it | evidently intended | confidence | as-written member | corrected member |
|---|---|---|---|---|---|---|
| app/src/main/java/com/example/mymediaplayer/MainActivity.java:549-553 | the queue dialog's remove button removes the entry and leaves `queueIndex` as it was | any queue [A, B, C] playing B at index 1, B and C with different uris; remove entry 0: the index now names C, so the header's "now playing" line shows C, skipping ahead is refused while B still plays, and when B finishes queue mode ends and C never plays | removing an entry before the current one lowers the index by one, so the index keeps naming the playing track | not executed | `Transport.RemoveFromQueueAsWritten`, used by `MainScreen.MainActivity.RemoveFromQueue`, exhibited by `TransportLemmas.RemoveAsWrittenLosesCurrent` and `TransportLemmas.RemoveAsWrittenDropsNext` | `Transport.RemoveFromQueue`, proved by `TransportLemmas.RemoveKeepsCurrent` |
