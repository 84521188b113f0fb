# Models of onexstack's stateful and arithmetic packages

This project models the parts of onexstack whose promises span several functions: the
short-code generator and the resource identifiers built on it, the version parser, printer
and comparison, the distributed locks and the watch that schedules behind one, token
revocation, the rune-wise string reversal, the `hash.Hash` misuse checker, and the job
index of the watch. Code that changes state is a class or a method proved against a
specification function; what the package promises is then proved of that function, or of
every run of a state machine whose steps use it.

## Short codes (`Arithmetic`, `Digits`, `ShortCode*`, `ResourceId`)

`NewCode` salts an identifier modulo 2^64, takes the `l` lowest digits in base
`b = |chars|`, mixes the units digit into the others in wrapping bytes and reads the result
through a permutation box. `None` is the run-time panic: `b` or `l` a multiple of 256, where
a byte divisor becomes zero. Of any list of options the last one for each setting that is not
ignored decides it, and each symbol of the code has a closed form without the loops.
*Invertible* settings have fewer than 256 distinct characters,
no harmful byte wrap (no sum passes 255, or `b` divides 256), and a box that shows every
position. The results are decisions, not sufficient conditions:

- the two loops lose nothing but the high quotient **iff** the settings are invertible;
- over one window of `b^l` consecutive identifiers in one 2^64 lap the codes are unique
  **iff** the settings are invertible and `gcd(n1, b) = 1`, and then they are all `b^l` strings;
- over such a window that passes exactly one multiple of 2^64 they are unique **iff** `b^l`
  divides 2^64, and if it does, over windows that pass any number of multiples too; for more
  than one the converse fails, as the multiplier -1 shows. With the default thirty characters
  a window with a multiple in it repeats a code, and a concrete pair shows it: the comment on
  `NewCode` promises a unique code for every unique id, which holds lap by lap only.

## Versions (`Version*`, `SemVerPrecedence`, `HighestVersion`)

The two regular expressions are hand scanners beside declarative shapes. Parsing accepts
exactly a grammar; printing is its inverse and a normal form. `ParseSemantic` is documented to
accept what exactly obeys Semantic Versioning 2.0.0, between ignored white space. The clauses
are stated on their own, for numbers of any size, and the code is followed where it parts:

- a documented text is accepted **iff** its three numbers are below 2^64 and the white space
  behind it has no newline (`.` does not match one);
- an accepted text is documented **iff** no pre-release identifier is digits with a leading
  zero, which clause 9 forbids and the parser overlooks where it does not fit 64 bits.

Which error a rejected text meets, and which component or identifier it names, is decided for
every text from a reading of the text on its own.

The comparison is the zero-padded lexicographic order on the numbers, and for two versions that
are not both semantic it is nothing else: transitivity across a version that is not semantic
holds **iff** the numbers differ or the pre-releases are in order. On pre-release
identifiers two exact classes are told apart, and two of versions, all of whose identifiers are
in them. The comparison follows clause 11 on the *good* identifiers, numbers that fit 64 bits
and words that sort above all of these: a semantic version is ordered by the clause against all
good versions **iff** it is good. It is transitive on the wider class of *ordered* identifiers,
which split the fitting numbers into low and high ones: a semantic version beside the ordered
ones keeps the comparison transitive **iff** it is ordered; every other one is in a circle with
two of them, as 1.0.0-1a is with 1.0.0-9 and 1.0.0-10.

## Locks (`LeaseSpec`, `Gorm*`, `TtlStore`, `Redis*`, `Memcached*`, `WatchRuns`)

`LeaseSpec` says what a lock is: leases that clients believe in, at most one of them current.
A client believes what a nil error promises, the lock for the timeout from then on. The three
lockers are classes over their store, with the failures of their statements and commands;
runs of many clients with a shared clock are state machines built from the same commit
functions, and a Redis or Memcached command may be carried out without its answer arriving.
Renew and Unlock filter by name only, so safety needs a discipline: they commit only while the
client's own lease is current. For each locker the exact condition is proved under which one
undisciplined unlock or renewal is safe. Under the discipline

- every run of the expiry-row lockers is a run of the lease machine; without it a run with two
  holders exists;
- Redis lockers exclude each other in all runs **iff** their owner identities are distinct and
  no client locks again while its own key is still there. A key with the own identity counts
  as success in `Lock`, although nothing is extended, whatever the log line says, and no ticker
  runs: the key ends when it would have, and the next client gets in. Under the condition that
  branch is never taken;
- Memcached lockers exclude each other in all runs **iff** every timeout is a whole number of
  seconds up to thirty days, or less than a second. Other timeouts are sent as fewer seconds or
  as a moment of the past; one of less than a second is sent as no expiration, and its key never
  goes away by itself.

A lock is also handed over: after an unlock nothing is stored, and the first attempt to get
through has the lock; after a crash of the holder it stays closed to everybody until the lease
is over.

A watch starts its jobs after `Lock` and stops them before `Unlock`, so one scheduler runs at
most while no lease lapses. A stopping watch leaves no row, and every waiting instance that then
reads the clock and tries gets the lock at once. Nothing stops a scheduler whose lease has lapsed: a run with two of
them exists, and a waiting instance comes to start the second one **iff** the row is absent or
expired before its clock reading.

## Revocation (`Revocation`)

A token is accepted **iff** its text is not empty, its key, signature and method are right, it is
in force at the clock reading and it is not listed, and then its own claims are returned; each of
the four refusals has such a condition too. `Destroy` of any other token fails and leaves the
store alone; of such a token it enters it into the store for as long as the token has still to
live. In every run
a destroyed token is rejected by any later `ParseClaims` that does not read the clock before
the expiry and the store after it; for a call that does, a run that lets the token through
exists. `Destroy` reports success without a store too, and then nothing is revoked; with a
store it dereferences nil **iff** the token parses and has no expiry, never for a signed one.

## Reversal, checker, job index (`Utf8`, `StringReverse`, `Hash*`, `StringSearch`, `JobManager`, `Watchers`)

`Reverse` is proved on all UTF-8 text. On all bytes its buffer is proved equal to a form without
a buffer, in which an invalid byte comes in front as the error rune and overwrites two bytes behind
it, and its out-of-bounds write is located exactly. The misuse checker keeps the path to the current node on its stack and reports what a
recursive definition by parent and grandparent says. The nodes below a file are read off the
fields of the tree without regard to the walk, as ways down from part to part: a call is reported
**iff** such a way ends in `Sum` selected from a hash inside that call. Its documentation, calls of `Sum` whose
parameter is not nil and whose value is used, is modelled apart from it, top-down over the
tree: parentheses change nothing, and `go`, `defer` and the blank identifier drop a value as
an expression statement does. On a file the two agree **iff** no way down ends in a *bystander* (handed
the method value `h.Sum`), a *false alarm* (the value dropped by `go`, `defer`, `var _` or
behind parentheses, or a nil in parentheses) or *overlooked* (`(h.Sum)(b)`, or
`hash.Hash.Sum(h, b)`); a well-formed file for each kind is given. The job manager with its scheduler
behaves as a plain map from names to jobs, beside any entries it does not own.

## Model

| member | source | states |
|---|---|---|
| ShortCode.CodeOptions.constructor | pkg/id/options.go:55-78 | the default characters, multipliers, length and salt |
| ShortCode.Applied | pkg/id/options.go:19-53 | no option makes settings without characters or positions: empty sets and lengths below one are ignored; which option settles what is the subject of the ShortCodeOptions rows |
| ShortCodeOptions.OneDecides | pkg/id/options.go:19-53 | of any list of options exactly one decides a setting, the last one for it that is not ignored, unless none is for it |
| ShortCodeOptions.LastOptionDecides | pkg/id/options.go:19-53 | after any list of options the characters, n1, n2, the length and the salt are each those of the option that decides it, and the one before if none does |
| ShortCodeOptions.FiveOptions | pkg/id/code_test.go:24-37 | the five options of the test, in any order, give ten digits as characters, n1 = 9, n2 = 3, five positions and the salt 56789 |
| ShortCode.CodeOptions.Apply | pkg/id/options.go:19-53 | an option closure changes the shared record as the option says and leaves the rest |
| ShortCode.Enlarge | pkg/id/code.go:16-16 | enlarging and salting is multiplication and addition modulo 2^64, for negative multipliers too |
| ShortCode.Diffuse | pkg/id/code.go:24-29 | the in-place loop leaves in the byte array the base-b digits, each mixed with the units symbol |
| ShortCode.Confuse | pkg/id/code.go:31-36 | the second loop spells, at each position, the symbol that the box selects |
| ShortCode.Generate | pkg/id/code.go:15-36 | both loops on the current option record compute the code of the enlarged identifier, or panic exactly where a byte divisor is zero |
| ShortCode.NewCode | pkg/id/code.go:10-37 | any sequence of options leaves valid settings, and the code is that of the settings they produce in order |
| ShortCodeForm.DigitAt | pkg/id/code.go:25-29 | the digit that repeated division reaches at place q is the quotient by b^q modulo b |
| ShortCodeForm.SymbolAt | pkg/id/code.go:15-36 | position i of the code shows the digit of the salted identifier at the place that the box gives, plus that place times the units digit, in bytes: in closed form, for all settings that do not panic |
| Digits.ValueOfDigits | pkg/id/code.go:25-29 | repeated remainder and division keep exactly the number modulo b^l |
| Digits.DigitsOfValue | pkg/id/code.go:25-29 | every digit sequence is the digits of some number |
| Digits.SameDigits | pkg/id/code.go:25-29 | equal digits iff equal modulo b^l |
| ShortCodeDecoder.MixIsAddition | pkg/id/code.go:26-27 | where wrapping is harmless, the byte arithmetic of the diffusion is addition modulo b |
| ShortCodeDecoder.BoxInjective | pkg/id/code.go:31-35 | a box that shows every position is a permutation |
| ShortCodeDecoder.DecodeOfCode | pkg/id/code.go:25-36 | for invertible settings the decoder recovers the enlarged number modulo b^l from its code |
| ShortCodeDecoder.CodeOfDecode | pkg/id/code.go:25-36 | and every string of length l over the characters is the code of the number decoded from it |
| ShortCodeUniqueness.SharedCode | pkg/id/code.go:25-36 | two enlarged numbers share a code iff they agree modulo b^l |
| ShortCodeUniqueness.CollisionSet | pkg/id/code.go:15-36 | two identifiers share a code iff their salted values modulo 2^64 agree modulo b^l, whatever n1 and the overflow |
| ShortCodeUniqueness.TooManyChars | pkg/id/code.go:26-27 | with more than 256 characters two numbers below b^l collide |
| ShortCodeUniqueness.RepeatedChar | pkg/id/code.go:34-34 | with a repeated character two numbers collide |
| ShortCodeUniqueness.HiddenPosition | pkg/id/code.go:33-34 | with a box that misses a position two numbers collide |
| ShortCodeUniqueness.WrapCollision | pkg/id/code.go:27-27 | a sum that can pass 255 in a base that does not divide 256 takes one value for two digits |
| ShortCodeUniqueness.HarmfulWrap | pkg/id/code.go:26-27 | so settings with a harmful wrap make two numbers collide |
| ShortCodeUniqueness.NotInvertibleCollides | pkg/id/code.go:25-36 | all settings that are not invertible make two numbers below b^l collide |
| ShortCodeUniqueness.NothingLostIffInvertible | pkg/id/code.go:24-36 | the loops are injective on the numbers below b^l iff the settings are invertible |
| ShortCodeWindow.SharedCodeInLap | pkg/id/code.go:10-37 | within one lap of 2^64, and with n1 coprime to b, two identifiers share a code iff they agree modulo b^l |
| ShortCodeWindow.CommonDivisorCollides | pkg/id/options.go:67-68 | with n1 not coprime to b, every window repeats its first code |
| ShortCodeWindow.UniqueIffSound | pkg/id/code.go:9-37 | the unique-code promise over b^l consecutive identifiers of one lap holds iff the settings are invertible and n1 is coprime to b |
| ShortCodeWindow.WindowFillsCodes | pkg/id/code.go:10-37 | such a window uses every string of length l over the characters |
| ShortCodeWindow.UniqueWhenDividing | pkg/id/code.go:9-16 | when b^l divides 2^64, sound settings keep the promise over every window, whatever multiples of 2^64 it passes |
| ShortCodeWindow.UniqueAcrossLapIffPowerOfTwo | pkg/id/code.go:9-16 | over a window that passes exactly one multiple of 2^64 sound settings keep the promise iff b^l divides 2^64 |
| ShortCodeWindow.CountingDownStaysUnique | pkg/id/code.go:9-16 | the multiplier -1 passes a multiple at every identifier and keeps the promise for any b^l, so one multiple cannot be replaced by several in the row above |
| ShortCodeWindow.DefaultLapCollision | pkg/id/code.go:9-16 | a concrete pair of close identifiers for which the default settings break it |
| ShortCodeWindow.BoxCoversIffCoprime | pkg/id/options.go:69-70 | where the box does not wrap, the coprimality the comment asks for is necessary and sufficient |
| ShortCodeWindow.NoWrapWhenShort | pkg/id/code.go:27-27 | l * (b - 1) at most 255 keeps the diffusion within a byte |
| ShortCodeWindow.DocumentedConditionsSuffice | pkg/id/options.go:67-72 | distinct characters, short enough codes and n2 coprime to l make settings invertible |
| ShortCodeWindow.DefaultsAreSound | pkg/id/options.go:55-78 | the default settings are invertible with a multiplier coprime to their base |
| ResourceId.RidOptions | pkg/rid/rid.go:37-42 | the options a resource identifier passes, applied in order, give 36 characters and length 6 |
| ResourceId.RidParamsAreSound | pkg/rid/rid.go:13-19 | these settings are invertible and sound for every salt |
| ResourceId.SplitOfNew | pkg/rid/rid.go:35-44 | an identifier is the prefix, a dash and six lower-case letters or digits; prefix and code are recovered from it, even when the prefix contains dashes |
| ResourceId.SameResourceId | pkg/rid/rid.go:34-44 | two identifiers are equal iff the prefixes are and the salted counters agree modulo 36^6 |
| ResourceId.NewIsInjective | pkg/rid/rid.go:34-44 | injective in prefix and counter over 36^6 consecutive counters of one lap |
| VersionText.JoinOfSplit | pkg/util/version/version.go:50-50 | splitting at dots loses nothing |
| VersionText.SplitOfJoin | pkg/util/version/version.go:50-50 | and parts without dots are found again |
| VersionText.ListIsListText | pkg/util/version/version.go:36-41 | the dotted-list pattern is: all parts non-empty and of the class |
| VersionText.NatOfDecimal | pkg/util/version/version.go:254-254 | a printed number is canonical and reads back as itself |
| VersionText.DecimalOfNat | pkg/util/version/version.go:59-63 | a numeral without a zero prefix is the printed form of its value |
| VersionScanner.VersionMatchIff | pkg/util/version/version.go:36-38 | the first scanner matches exactly the texts of the first expression's shape |
| VersionScanner.VersionMatchYields | pkg/util/version/version.go:36-48 | and yields the one decomposition whose numbers cannot be prolonged |
| VersionScanner.ExtraMatchIff | pkg/util/version/version.go:39-40 | the second scanner accepts exactly pre-release, build metadata and white space, and takes them apart in the only way |
| Version.Parse | pkg/util/version/version.go:43-87 | the parser's loops compute the specified parse, with the first error in the code's order |
| Version.String | pkg/util/version/version.go:244-266 | the printer's buffer ends up as the dotted decimals with the marked parts |
| VersionGrammar.SemanticIff | pkg/util/version/version.go:43-87 | the semantic parser yields v iff the text is v printed, after optional white space and v, before white space without a newline, with three numbers below 2^64, parts as in clauses 9 and 10, and no identifier that fits 64 bits and has a leading zero |
| VersionSyntax.DocumentedAcceptedIff | pkg/util/version/version.go:148-156 | a text of clauses 2, 9 and 10 with numbers of any size, between white space, is accepted iff the three numbers fit 64 bits and the white space behind has no newline, and then yields its parts |
| VersionSyntax.AcceptedDocumentedIff | pkg/util/version/version.go:76-84 | an accepted text is one of these iff no pre-release identifier is digits with a leading zero; such an identifier does not fit 64 bits |
| VersionSyntax.LeadingZeroAccepted | pkg/util/version/version.go:77-83 | 1.0.0-01 with twenty zeros behind is accepted, and clause 9 forbids it |
| VersionSyntax.LargeNumberRejected | pkg/util/version/version.go:63-66 | 1 with twenty zeros behind, then .0.0, is rejected, and clause 2 allows it |
| VersionSyntax.NewlineRejectedExample | pkg/util/version/version.go:36-38 | 1.0.0 and a newline is rejected, and trailing white space is documented as ignored |
| VersionErrors.NoVersionIff | pkg/util/version/version.go:43-48 | a text is said to be no version iff it cannot be read as white space, an optional v, digits between dots and a rest of the line that does not carry them on |
| VersionErrors.NumbersRefused | pkg/util/version/version.go:50-68 | of a text that can be read so: the number of components is complained about iff it is wrong, then the first component that has a forbidden zero or does not fit, with the zero told first; a generic version meets no other error |
| VersionErrors.ExtraRefused | pkg/util/version/version.go:70-84 | of a semantic version with three good numbers: the rest is complained about iff it is no pre-release and build metadata before white space, and else the first fitting identifier with a leading zero; without one it is accepted with these parts |
| VersionGrammar.SemanticRoundTrip | pkg/util/version/version.go:150-156 | a parsed semantic version, printed and parsed, comes back with all fields |
| VersionGrammar.GenericIff | pkg/util/version/version.go:130-138 | the generic parser yields v iff the text is two or more numerals, the first without a zero prefix, in machine width, followed by anything without a newline that does not prolong them |
| VersionGrammar.GenericRoundTrip | pkg/util/version/version.go:130-138 | a parsed generic version, printed and parsed, comes back |
| VersionGrammar.TextIsInjective | pkg/util/version/version.go:241-266 | the printed form is a normal form of parsed versions of one kind |
| VersionGrammar.TrailingSpaceIffNoNewline | pkg/util/version/version.go:36-48 | white space after an accepted version is ignored iff it has no newline |
| VersionCompare.AllZeros | pkg/util/version/version.go:337-345 | true iff no component is different from zero |
| VersionCompare.CompareInternal | pkg/util/version/version.go:270-335 | the method with its loops computes the comparison that the lemmas are about |
| VersionCompare.ComparePreRelease | pkg/util/version/version.go:303-334 | the identifier loop computes the comparison of identifier lists |
| VersionCompare.Compare | pkg/util/version/version.go:362-371 | a text is parsed as a version of the own kind; its parse error is passed on, else the versions are compared |
| VersionCompare.CmpOpposite | pkg/util/version/version.go:270-335 | swapping any two versions of either kind negates the comparison |
| VersionCompare.CompareWithOwnText | pkg/util/version/version.go:362-371 | every parsed version compares as zero with its own printed form |
| VersionCompare.ComponentsCmpIsPadded | pkg/util/version/version.go:271-288 | the numeric part is the lexicographic order of the zero-padded infinite sequences |
| VersionCompare.GenericOrder | pkg/util/version/version.go:347-360 | non-semantic versions of any lengths are ordered transitively and blindly to trailing zeros |
| VersionCompare.NumbersDecide | pkg/util/version/version.go:290-292 | for two versions that are not both semantic the comparison is -1, 1 or 0 as the padded numbers are below, above or equal, whatever the pre-releases |
| VersionCompare.LessThanIsNotAtLeast | pkg/util/version/version.go:347-360 | exactly one of AtLeast and LessThan holds of any two versions; of two versions AtLeast holds one way or the other, LessThan at most one way |
| VersionCompare.TransitiveAcrossKindsIff | pkg/util/version/version.go:290-292 | across a version that is not semantic two semantic ones stay in order iff their numbers differ or their pre-releases are in order |
| SemVerPrecedence.IdentifierAgrees | pkg/util/version/version.go:305-325 | on good identifiers the comparison is clause 11.4 of Semantic Versioning 2.0.0 |
| SemVerPrecedence.LetterFirstIsGood | pkg/util/version/version.go:305-325 | every identifier that starts with a letter is good |
| SemVerPrecedence.BadIdDisagrees | pkg/util/version/version.go:305-325 | every other identifier is ordered against the clause with some good one |
| SemVerPrecedence.GoodIdsAreExact | pkg/util/version/version.go:305-325 | an identifier agrees with the clause against all good ones iff it is good |
| SemVerPrecedence.ComparisonIsPrecedence | pkg/util/version/version.go:268-335 | on semantic versions with good identifiers the comparison is clause 11, and zero iff they differ in build metadata at most |
| SemVerPrecedence.BadVersionDisagrees | pkg/util/version/version.go:268-335 | every semantic version with an identifier outside the class is ordered against clause 11 with some good version |
| SemVerPrecedence.GoodVersionsAreExact | pkg/util/version/version.go:268-335 | a semantic version is ordered by clause 11 against all good versions iff it is good |
| VersionOrder.GoodIsOrdered | pkg/util/version/version.go:305-325 | the ordered identifiers include the good ones and more |
| VersionOrder.NumbersAndText | pkg/util/version/version.go:305-325 | an ordered identifier that is no fitting number splits these numbers into low and high ones |
| VersionOrder.IdentifierTransitive | pkg/util/version/version.go:305-325 | the comparison of ordered identifiers is transitive |
| VersionOrder.Circle | pkg/util/version/version.go:305-325 | every other valid identifier is in a circle with two numbers, nines and the power of ten behind them |
| VersionOrder.OrderedIff | pkg/util/version/version.go:305-325 | beside the good identifiers a valid identifier keeps the comparison transitive iff it is ordered |
| VersionOrder.OrderIsTotalPreorder | pkg/util/version/version.go:268-335 | on semantic versions with ordered identifiers the comparison is total and transitive |
| VersionOrder.VersionCircle | pkg/util/version/version.go:268-335 | every semantic version with an identifier that is not ordered is in a circle with two ordered versions, which share what is in front of the first such one |
| VersionOrder.OrderedVersionIff | pkg/util/version/version.go:268-335 | beside the ordered versions a semantic version keeps the comparison transitive iff it is ordered |
| VersionOrder.ComparisonCycle | pkg/util/version/version.go:305-325 | 1.0.0-9 below 1.0.0-10 below 1.0.0-1a below 1.0.0-9 |
| HighestVersion.FindHighest | pkg/util/version/version.go:101-115 | the backward loop ends with the maximum of the entries that parse with major at most 1, the last of its equals |
| HighestVersion.HighestMajor | pkg/util/version/version.go:123-125 | the maximum has major 1 iff some entry has |
| HighestVersion.HighestIsPadded | pkg/util/version/version.go:107-115 | no entry considered has padded numbers above those of the maximum |
| HighestVersion.HighestSupportedVersion | pkg/util/version/version.go:89-128 | success iff some entry parses with major 1; the result is the last maximum, and no entry that parses with major at most 1 has higher padded numbers; empty list, nothing found and major 0 are told apart |
| LeaseSpec.MovesExclusive | pkg/watch/watch.go:149-150 | an allowed action of the lease machine keeps at most one current lease |
| LeaseSpec.RunExclusive | pkg/watch/watch.go:149-150 | at most one current lease in every state of every run |
| GormLocker.Locker.Lock | pkg/distlock/gorm.go:64-106 | granted iff no row, or one expired before the reading, and no statement fails; then the row carries the own lease and the ticker runs, else nothing changed; rows of other names stay |
| GormLocker.Locker.Unlock | pkg/distlock/gorm.go:109-127 | the ticker is stopped in any case; the row of the name is gone iff the delete succeeded, whoever owned it |
| GormLocker.Locker.Renew | pkg/distlock/gorm.go:130-145 | the row of the name, whoever owns it, gets the new expiry; a missing row is no error |
| GormRuns.LockFindsNobody | pkg/distlock/gorm.go:68-92 | a grant finds no client within its lease, however old the clock reading it rests on |
| GormRuns.StepKeepsInv | pkg/distlock/gorm.go:64-145 | every disciplined step keeps: one current lease at most, and the row is exactly it |
| GormRuns.RunKeepsInv | pkg/distlock/gorm.go:64-145 | so does every disciplined run, with clock readings and commits apart |
| GormRuns.MutualExclusion | pkg/distlock/gorm.go:63-145 | two clients within their leases are one, and the row carries its owner and expiry |
| GormRuns.StepRefines | pkg/distlock/gorm.go:64-145 | each disciplined step is an action of the lease machine or none |
| GormRuns.RunRefines | pkg/distlock/gorm.go:64-145 | each disciplined run is a run of the lease machine |
| GormRuns.UnlockSafeIff | pkg/distlock/gorm.go:119-119 | an unlock at any time is safe iff no other client is within its lease |
| GormRuns.RenewSafeIff | pkg/distlock/gorm.go:134-137 | a renewal at any time is safe iff no other client is within its lease and the new lease is over already or the own row is still there |
| GormRuns.UndisciplinedUnlockBreaksExclusion | pkg/distlock/gorm.go:119-119 | a run with a late unlock and two clients within their leases |
| GormRuns.CellStays | pkg/distlock/gorm.go:64-145 | a row that nobody acquires or renews stays as it is or is deleted |
| GormRuns.Takeover | pkg/distlock/gorm.go:84-92 | once the holder stops renewing, an attempt whose reading is past the stored expiry succeeds and makes the row its own |
| GormRuns.UnlockHandsOver | pkg/distlock/gorm.go:109-127 | after an unlock there is no row until somebody commits a lock, and whoever commits first gets it |
| GormRuns.CrashKeepsLock | pkg/distlock/gorm.go:84-92 | after a crash of the holder, in every disciplined run, the row stays and every attempt fails until the expiry has passed |
| TtlStore.Server.Add | pkg/distlock/redis.go:50-50 | stores iff the key is absent or run out, and touches no other key |
| TtlStore.Server.Expire | pkg/distlock/redis.go:102-102 | moves the expiry of a key that is there and keeps its value |
| TtlStore.Server.Replace | pkg/distlock/memcached.go:112-112 | overwrites a key that is there, and reports one that is not |
| RedisLocker.Locker.Lock | pkg/distlock/redis.go:46-74 | the key is written iff it was absent and the command carried out; a present key leaves the decision to the owner found by the second command, with nothing written and no ticker: another owner is named in the error, and a key gone by then is an error of its own; a command without an answer is an error |
| RedisLocker.Locker.Unlock | pkg/distlock/redis.go:77-95 | the ticker is stopped in any case; the key is gone iff the delete was carried out, whoever set it |
| RedisLocker.Locker.Renew | pkg/distlock/redis.go:98-110 | the key, whoever set it, lives on for the timeout iff the command was carried out; a missing key is no error |
| RedisRuns.CheckFindsOthers | pkg/distlock/redis.go:55-67 | with distinct owners and no repeated locking the own-key branch of Lock is never taken |
| RedisRuns.StepKeepsInv | pkg/distlock/redis.go:46-110 | then every disciplined step, the two commands of Lock apart and answers lost, keeps: the key of a current lease was set by its holder and outlives it |
| RedisRuns.RunKeepsInv | pkg/distlock/redis.go:46-110 | so does every such run |
| RedisRuns.UnlockSafeIff | pkg/distlock/redis.go:87-87 | an unlock at any time is safe iff no other client is within its lease |
| RedisRuns.RenewSafeIff | pkg/distlock/redis.go:102-102 | an answered renewal at any time is safe iff the key there is the client's own |
| RedisRuns.LostRenewalSafeIff | pkg/distlock/redis.go:102-102 | one whose answer is lost is safe iff no lease outlasts the expiry it sets |
| RedisRuns.StepRefines | pkg/distlock/redis.go:46-110 | each such step is an action of the lease machine or none, the key running out between the two commands included |
| RedisRuns.RunRefines | pkg/distlock/redis.go:46-110 | each such run is a run of the lease machine |
| RedisRuns.SharedOwnerBreaksExclusion | pkg/distlock/redis.go:61-67 | any two clients with one identity both end up within a lease |
| RedisRuns.RepeatedLockBreaksExclusion | pkg/distlock/redis.go:55-67 | any client that locks again while its own key is there shares the lock with any other, distinct owners or not |
| RedisRuns.ExclusiveIff | pkg/distlock/redis.go:46-110 | two or more clients exclude each other in all disciplined runs iff the owners are distinct and locking the own key again is ruled out |
| RedisRuns.UnlockHandsOver | pkg/distlock/redis.go:77-95 | after an unlock there is no key until somebody sets it, and whoever does first gets the lock for its timeout |
| RedisRuns.CrashKeepsLock | pkg/distlock/redis.go:46-74 | after a crash of the holder the key stays, and nobody comes to be within a lease, until the lease of the crashed one is over |
| MemcachedLocker.KeyStaysIff | pkg/distlock/memcached.go:52-59 | the key stays for the whole timeout iff the timeout is a whole number of seconds up to thirty days or less than a second |
| MemcachedLocker.KeyEndsIff | pkg/distlock/memcached.go:52-59 | it goes away by itself, and by the end of the timeout, iff the timeout is at least a second |
| MemcachedLocker.Locker.Lock | pkg/distlock/memcached.go:47-74 | granted iff the key is absent and the answer arrives; then the ticker runs; the key is written iff it was absent and the command carried out |
| MemcachedLocker.Locker.Unlock | pkg/distlock/memcached.go:77-97 | the ticker is stopped in any case; the key is gone iff the delete was carried out, whoever added it; a missing key is an error |
| MemcachedLocker.Locker.Renew | pkg/distlock/memcached.go:100-123 | a key that is there, whoever added it, becomes the own for the timeout; a missing key, or no answer, is an error |
| MemcachedRuns.StepKeepsInv | pkg/distlock/memcached.go:47-123 | with such covering timeouts every disciplined step, answers lost or not, keeps: the key of a current lease was set by its holder and outlives it |
| MemcachedRuns.RunKeepsInv | pkg/distlock/memcached.go:47-123 | so does every disciplined run |
| MemcachedRuns.UnlockSafeIff | pkg/distlock/memcached.go:89-89 | an unlock at any time is safe iff no other client is within its lease |
| MemcachedRuns.RenewSafeIff | pkg/distlock/memcached.go:104-112 | so is a renewal, answered or not |
| MemcachedRuns.StepRefines | pkg/distlock/memcached.go:47-123 | from a state with that property, for any timeouts, each step is an action of the lease machine or none |
| MemcachedRuns.RunRefines | pkg/distlock/memcached.go:47-123 | with covering timeouts each disciplined run is a run of the lease machine |
| MemcachedRuns.UncoveredBreaksExclusion | pkg/distlock/memcached.go:52-59 | any client with another timeout shares the lock with any other client, in some disciplined run from any moment on |
| MemcachedRuns.FractionExample | pkg/distlock/memcached.go:55-55 | so with a timeout of a second and a half |
| MemcachedRuns.LongExample | pkg/distlock/memcached.go:55-55 | so with a timeout of thirty-one days |
| MemcachedRuns.ExclusiveIffCovering | pkg/distlock/memcached.go:47-123 | two or more clients exclude each other in all disciplined runs iff all timeouts are covering |
| MemcachedRuns.UnlockHandsOver | pkg/distlock/memcached.go:77-97 | after an unlock there is no key until somebody adds it, and whoever does first gets the lock for its timeout |
| MemcachedRuns.CrashKeepsLock | pkg/distlock/memcached.go:47-74 | with covering timeouts, after a crash of the holder the key stays, and nobody comes to be within a lease, until the lease of the crashed one is over |
| WatchRuns.StepKeepsInv | pkg/watch/watch.go:136-180 | starting jobs after Lock and stopping them before Unlock keeps every scheduler behind a lease |
| WatchRuns.RunKeepsInv | pkg/watch/watch.go:136-180 | so in every run of any number of instances |
| WatchRuns.TwoSchedulersNeedALapsedLease | pkg/watch/watch.go:136-180 | two schedulers at once both hold a lease in their belief, and one of these has lapsed |
| WatchRuns.SingleScheduler | pkg/watch/watch.go:136-180 | while no lease of an instance with a ticker has lapsed one scheduler runs at most, and the row is exactly its lease |
| WatchRuns.RunningHolderIsNotRobbed | pkg/watch/watch.go:136-161 | and every attempt by anyone to lock fails |
| WatchRuns.SecondSchedulerIff | pkg/watch/watch.go:148-161 | while a scheduler runs, a waiting instance that reads the clock and tries comes to start a second iff the row is absent or expired before the reading |
| WatchRuns.AttemptIff | pkg/watch/watch.go:148-159 | a waiting instance that reads the clock and tries gets the lock iff the row is absent or expired before the reading, and then the row is its own; else nothing has changed |
| WatchRuns.ReleaseHandsOver | pkg/watch/watch.go:166-180 | in every run, an instance that stops leaves no row and is off, and any waiting instance that then reads the clock and tries gets the lock |
| WatchRuns.FirstAttemptAfterRelease | pkg/watch/watch.go:148-180 | whatever happens after the release short of an attempt, there is no row, and the first attempt succeeds |
| WatchRuns.LeftRowLasts | pkg/watch/watch.go:175-177 | an instance that crashes, or whose unlock fails, leaves the row, and others get the lock iff it had expired |
| WatchRuns.RenewalExtends | pkg/watch/watch.go:141-145 | a renewal within the lease moves lease and row to the timeout behind its clock reading and lets no scheduler start or stop |
| WatchRuns.StageEntered | pkg/watch/watch.go:136-180 | an instance that is not off came to its stage by a step of the run that brings that stage, and has not left it since |
| WatchRuns.JobsStartBehindLock | pkg/watch/watch.go:149-161 | jobs are started only by an instance whose lock attempt succeeded before, with nothing of its own in between |
| WatchRuns.UnlockBehindJobStop | pkg/watch/watch.go:167-175 | a lock is released only by an instance that stopped its jobs before |
| WatchRuns.LapseStartsSecondScheduler | pkg/watch/watch.go:136-161 | any two instances can both come to run a scheduler, the second once the lease of the first has lapsed |
| Revocation.JWTAuth.Sign | pkg/authn/jwt/jwt.go:131-165 | the expiry reported with a token is the expiry inside it |
| Revocation.JWTAuth.Destroy | pkg/authn/jwt/jwt.go:195-215 | a token that parses is listed until the expiry counted from the store command; every other outcome leaves the list alone |
| Revocation.JWTAuth.ParseClaims | pkg/authn/jwt/jwt.go:168-246 | parse errors come first, then the store's error, then the denylist; without a store there is none |
| Revocation.AcceptedIff | pkg/authn/jwt/jwt.go:168-246 | a token text is accepted with given claims iff it is not empty, decodes to these claims with an accepted key, a good signature and the configured method, the clock is before exp and not before nbf or iat, and it is not listed |
| Revocation.RefusedAs | pkg/authn/jwt/jwt.go:168-246 | each of the four refusals has its exact condition, and there is no fifth; a date that is out is told before a bad signature |
| Revocation.DestroyRefuses | pkg/authn/jwt/jwt.go:203-207 | Destroy of a token with a wrong key, signature or method, or that is not in force, fails and leaves the denylist as it was |
| Revocation.DestroyedIff | pkg/authn/jwt/jwt.go:203-215 | Destroy of any other token succeeds iff there is no store, or the token has an expiry and the store is up; the entry lasts for what the token had still to live, and no other entry changes |
| Revocation.NilDereferenceIff | pkg/authn/jwt/jwt.go:203-215 | Destroy dereferences nil iff there is a store and the token parses and has no expiry |
| Revocation.SignedTokenIsNoNil | pkg/authn/jwt/jwt.go:131-215 | never for a signed token, whenever it is destroyed |
| Revocation.SignedTokenAcceptedIff | pkg/authn/jwt/jwt.go:131-246 | a signed token yields its own claims iff the clock is before the whole second of its expiry and it is not listed |
| Revocation.SignedTokenSays | pkg/authn/jwt/jwt.go:131-146 | what is read back from a signed token is the configured issuer, the user as subject, and the whole seconds of the signing and of the expiry |
| Revocation.StepKeepsInv | pkg/authn/jwt/jwt.go:203-215 | every step keeps: a destroyed token is listed, or its expiry has passed |
| Revocation.RunKeepsInv | pkg/authn/jwt/jwt.go:203-215 | so does every run of ticks, destroys and dropped entries |
| Revocation.DestroyedIsRejected | pkg/authn/jwt/jwt.go:203-246 | from the return of Destroy on, every ParseClaims that does not straddle the expiry rejects the token |
| Revocation.DestroyedIsRejectedAtOnce | pkg/authn/jwt/jwt.go:203-246 | so does every call whose halves see one clock time, at any time |
| Revocation.GapIffCrossesExpiry | pkg/authn/jwt/jwt.go:223-243 | some run lets a destroyed token through in a call with given readings iff the call straddles the expiry |
| Revocation.RevokedIffStoreConfigured | pkg/authn/jwt/jwt.go:195-215 | after a successful Destroy the token is rejected iff there is a store |
| Utf8.EncodeIsChar | pkg/util/strings/strings.go:104-106 | an encoded rune is one character of section 4 of RFC 3629 with that value, whatever follows |
| Utf8.EncodeOfChar | pkg/util/strings/strings.go:104-106 | a character read and encoded again is the bytes it was read from |
| Utf8.EncodeAllIsUtf8 | pkg/util/strings/strings.go:104-106 | encodings of rune sequences are UTF-8 and decode to them |
| Utf8.Utf8IsEncodeAll | pkg/util/strings/strings.go:104-106 | and every UTF-8 text is one |
| StringReverse.EncodeRune | pkg/util/strings/strings.go:106-106 | writes exactly the encoding at its offset, or nothing when it does not fit |
| StringReverse.Reverse | pkg/util/strings/strings.go:100-110 | the buffer loop computes the specified reversal, None for an out-of-bounds write |
| StringReverse.ReverseOfUtf8 | pkg/util/strings/strings.go:100-110 | UTF-8 text is reversed, in bounds, into the encodings of its runes in reverse order, which is UTF-8 of the same length |
| StringReverse.ReverseTwice | pkg/util/strings/strings.go:100-110 | reversing twice gives the text back |
| StringReverse.WritesTile | pkg/util/strings/strings.go:103-107 | the variable-width writes cover the buffer once, without gap or overlap |
| StringReverse.ReversalIsStacked | pkg/util/strings/strings.go:100-110 | on any bytes the buffer is reversed to what a form without a buffer says: a character comes in front, an invalid byte comes as the error rune and overwrites the two bytes behind it; None where these are missing |
| StringReverse.PanicsIff | pkg/util/strings/strings.go:103-107 | on arbitrary bytes a write is out of bounds iff the text starts with an invalid byte, or with one ASCII byte and then an invalid one |
| HashLint.Checker.Enter | pkg/util/lint/hash/hash.go:82-136 | with the path to the node on the stack the look two and three places down is safe, and exactly the node's own finding is reported |
| HashLint.Checker.AssignedToBlank | pkg/util/lint/hash/hash.go:114-125 | the loop over an assignment's values always finds the call, so the panic is unreachable, and answers for the matching target |
| HashLint.Checker.Leave | pkg/util/lint/hash/hash.go:78-81 | one node is popped and nothing reported |
| HashLint.Checker.Inspect | pkg/util/lint/hash/hash.go:76-146 | traversing a tree leaves the stack as it was and reports what the recursive parent-and-grandparent definition says, in its order; HashTree.FindingsIff says what that is over the nodes of the tree |
| HashLint.Checker.InspectAll | pkg/util/lint/hash/hash.go:76-146 | so do all children of a node |
| HashLint.Checker.Run | pkg/util/lint/hash/hash.go:142-146 | the stack is empty after the files, and the reports are those of each file in turn |
| HashTree.ChildrenAreParts | pkg/util/lint/hash/hash.go:142-146 | the walk goes from a node to what stands in one of its fields, and nowhere else |
| HashTree.FindingsIff | pkg/util/lint/hash/hash.go:76-146 | a call is reported for a file iff a way down from the file, field by field, ends in Sum selected from a hash, inside that call of one argument other than nil, which is no statement and not assigned to the blank identifier |
| HashTree.FindingsInFilesIff | pkg/util/lint/hash/hash.go:142-146 | so for several files |
| HashMisuse.FindingsAreReported | pkg/util/lint/hash/hash.go:76-146 | the findings of a traversal are, in number, those of each call by itself |
| HashMisuse.UnusedIsDroppedInSight | pkg/util/lint/hash/hash.go:113-130 | the checker takes a value for unused iff the tree drops it and the form is one of the two the switch looks for |
| HashMisuse.OwnIff | pkg/util/lint/hash/hash.go:55-134 | the reports of one call are what is documented of it iff it is no bystander, no false alarm and not overlooked |
| HashMisuse.ReportedIff | pkg/util/lint/hash/hash.go:55-134 | the same of all calls at and below a node |
| HashMisuse.ReportsAreMisusesIff | pkg/util/lint/hash/hash.go:55-146 | over a file of a package that compiles the checker reports exactly the documented misuses, each as often, iff no call in it is one of these |
| HashMisuseTree.FindingsCount | pkg/util/lint/hash/hash.go:76-146 | in a file of a package that compiles each such call is reported once, and no other |
| HashMisuseTree.MisusesCount | pkg/util/lint/hash/hash.go:55-60 | the documented misuses of a tree are the calls to which some way down leads that ends in Sum with a parameter other than nil, with a value that nothing above, seen through parentheses, drops; each counts once |
| HashMisuseTree.ReportsMisusesIff | pkg/util/lint/hash/hash.go:55-146 | over such a file every documented misuse to which a way down leads is reported once and nothing else is, iff no way down ends in a bystander, a false alarm or an overlooked call |
| HashArgument.ArgumentExample | pkg/util/lint/hash/hash.go:82-136 | in a file with the statement f(h.Sum(b)) exactly the inner call is reported, a documented misuse |
| HashMisuse.BystanderExample | pkg/util/lint/hash/hash.go:95-101 | a well-formed file with f(h.Sum), as a type-checked package may hold, is misjudged |
| HashMisuse.DeferExample | pkg/util/lint/hash/hash.go:113-130 | a file with defer h.Sum(b) is |
| HashMisuse.GoExample | pkg/util/lint/hash/hash.go:113-130 | a file with go h.Sum(b) is |
| HashMisuse.BlankDeclarationExample | pkg/util/lint/hash/hash.go:113-130 | a file with var _ = h.Sum(b) is |
| HashMisuse.ParenthesizedCallExample | pkg/util/lint/hash/hash.go:113-130 | a file with _ = (h.Sum(b)) is |
| HashMisuse.ParenthesizedNilExample | pkg/util/lint/hash/hash.go:104-108 | a file with h.Sum((nil)) is |
| HashMisuse.ParenthesizedSumExample | pkg/util/lint/hash/hash.go:95-98 | a file with (h.Sum)(b) is |
| HashMisuse.ThroughTypeExample | pkg/util/lint/hash/hash.go:99-101 | a file with hash.Hash.Sum(k, b) is |
| StringSearch.FindString | pkg/util/strings/strings.go:86-94 | the first index of the string, or -1 iff it is not in the list |
| StringSearch.StringIn | pkg/util/strings/strings.go:96-98 | membership |
| JobManager.Manager.constructor | pkg/watch/manager/manager.go:28-40 | the last scheduler named by an option is used; its entries count as foreign |
| JobManager.Manager.AddJob | pkg/watch/manager/manager.go:43-61 | succeeds iff the name is free and the schedule parses; then the visible jobs gain exactly this one, else nothing changed |
| JobManager.Manager.RemoveJob | pkg/watch/manager/manager.go:64-78 | the visible jobs lose exactly the name, which need not be there |
| JobManager.Manager.JobExists | pkg/watch/manager/manager.go:109-115 | true iff the name has a job |
| JobManager.AddAgrees | pkg/watch/manager/manager.go:43-61 | an Add keeps: ids injective, every entry of the scheduler indexed once or foreign, foreign entries untouched |
| JobManager.AddShows | pkg/watch/manager/manager.go:43-61 | and shows as an insertion into the plain map, or as nothing with an error: a taken name is complained about first, then a bad schedule |
| JobManager.RemoveAgrees | pkg/watch/manager/manager.go:64-78 | a Remove keeps the agreement |
| JobManager.RunIsPlainMap | pkg/watch/manager/manager.go:43-78 | after any calls index and scheduler agree, and show the plain map that the calls build |
| JobManager.IssuedAscend | pkg/watch/manager/manager.go:53-60 | the ids returned over any calls ascend, so none is given out twice |
| JobManager.PresentIff | pkg/watch/manager/manager.go:43-78 | a new manager has a job for a name iff some good Add of it was not undone since |
| JobManager.PresentFromFirst | pkg/watch/manager/manager.go:43-78 | and the job is that of the first such Add |
| Watchers.AddWatcher | pkg/watch/watch.go:120-128 | one watcher comes in with its own or the default schedule iff its name is free and the schedule parses |
| Watchers.AddWatchers | pkg/watch/watch.go:109-132 | for every iteration order: success iff every enabled watcher can be added, and then exactly the registered watchers that are not disabled came in, each with its job on its own schedule or every three seconds; on an error, which names one that cannot be, only a part came in |
| Watchers.NewWatch | pkg/watch/watch.go:72-107 | a new watch is made iff the schedules of all enabled watchers parse; its names are then exactly the registered ones that are not disabled, each with its job on its own schedule or every three seconds, and nothing else was added to the runner |

## Left out

- The etcd, Consul, ZooKeeper, MongoDB and no-op lockers: unconditional puts, per-owner nodes, conflicting update operators or nothing at all, so they do not fit the lease machine.
- Database internals: a transaction is atomic, its commit succeeds when the closure returns nil, and a failed insert leaves the transaction usable. `isDuplicateEntry` inspects driver errors and is taken as right.
- One shared integer clock; clock skew between hosts and between client and store is not modelled.
- The renewal goroutine, its channel and its ticker: renewal is a step allowed at any disciplined moment, which includes those of the ticker. The endless retry of `Watch.Start` is the repetition of steps in a run.
- A second Lock by the current holder is a normal attempt: the expiry-row locker refuses it while the row is current, as the code does.
- Timeouts below two nanoseconds, for which the renewal ticker panics, Redis time-to-live values in whole milliseconds and seconds as the client rounds them, and Memcached timeouts beyond 32 bits of seconds.
- ShortCodeWindow.UniqueAcrossLapIffPowerOfTwo: assumes one multiple of 2^64 in the window; for several, two identifiers collide as `ShortCodeUniqueness.CollisionSet` says, with no closed condition on the settings.
- `UpdateJob`, which takes its own mutex a second time through `RemoveJob` and does not return for an existing job, and the map that `GetJobs` shares with its caller.
- The cron library is not part of this model: a scheduler gives out ascending ids, keeps entries by id and decides by a predicate which schedules parse. Running the jobs is left out, and so is `Initialize` of watchers.
- JWT encoding, HMAC, key functions, token headers, bcrypt and casbin: decoding and signatures are parameters. A signing failure is not modelled.
- The store of tokens keeps an entry at least as long as asked; a store that evicts earlier voids the revocation results.
- `Salt` and the machine id, and the Sonyflake generator: I/O and a library.
- Version accessors and the `With*` copies, `MustParse*`, and printing a nil version. The platform's `uint` is 64 bits wide.
- HashLint.Checker.Run: assumes trees that the language admits: nothing is assigned to a call, an assignment has no more values than targets, and its values are distinct nodes.
- Whether an operand is a `hash.Hash` is a flag of the tree, which the checker and its documentation share: the checker compares the name of the type, so a `hash.Hash32`, a struct that embeds the interface and an alias of it count as something else in both.
- MemcachedLocker.KeyStaysIff: takes the server to drop a key at its moment; a server whose clock counts whole seconds may drop it up to a second earlier.
- HashMisuse.ReportsAreMisusesIff: reads "nil" and "used" off the syntax: a nil parameter is the identifier `nil`, and a value that is stored and never looked at counts as used. A file is misjudged or not as a whole; types in variable declarations are not kept.
- Texts of errors, logging, i18n, HTTP and gRPC servers, command-line wiring, list helpers and file helpers.
