# Validator grammars in Dafny

This project models the input-validation grammar library of a small Kotlin web
backend: the `Validator` object, which builds three `java.util.regex` patterns
by string concatenation. `WEB_URL` recognises web addresses.
`AUTOLINK_EMAIL_ADDRESS` recognises email addresses in the style of RFC 5321.
`EMAIL_ADDRESS` recognises a simpler ASCII form. They are built from these
sub-grammars:

- dotted-quad IPv4 literals (`IP_ADDRESS_STRING`);
- the `UCS_CHAR`, `LABEL_CHAR` and `TLD_CHAR` character classes;
- IRI labels, Punycode and plain top-level domains, and host names;
- the scheme (`PROTOCOL`), `USER_INFO`, `PORT_NUMBER` and `PATH_AND_QUERY`;
- the email local part and the email domain.

Each sub-grammar is a predicate over a Dafny `string`. A Dafny `char` is a
Unicode scalar value, which is how Java's regex engine reads a `String`: a
surrogate pair is one character. A regex concatenation becomes an existential
split point. A bounded repetition becomes a length bound or a recursion on a
unit count. A composite pattern is matched against the whole string, as
`Pattern.matcher(s).matches()` does.

The character classes follow Java's default mode:

- `\w` is `[A-Za-z0-9_]` and `\d` is `[0-9]`;
- `\s` is the six ASCII white-space characters;
- `.` excludes the five line terminators;
- `(?i)` folds ASCII letters only.

The proofs relate each grammar to an independent reading:

- an octet is one to three digits of value at most 255;
- a host name's pieces between dots are labels followed by one TLD;
- a path is characters or `%XX` escapes;
- a URL is the concatenation of its five optional parts;
- an email address has exactly one `@`.

The proofs also establish the limits the patterns enforce, counted in
characters: 63 per label, 63 per Punycode TLD, 64 per local part and 255 per
email domain. The comments cite the label, local-part and domain limits from
RFC 1035 and RFC 5321 in octets; examples prove those octet limits do not
hold.

Modules:

- `Chars`: character classes.
- `Seqs`: `Split` and `Join` on a separator.
- `Ipv4`: IPv4 literals.
- `HostName`: labels, TLDs, host names and domain names.
- `WebUrl`: `WEB_URL` and its parts.
- `Email`: both email grammars.

Notes on what the code does:

- **First octet "0".** `0.1.2.3` is not an IPv4 literal: the first-octet
  alternatives at src/utils/Validator.kt:7 have no single `0`, while the other
  three octets accept one. `Ipv4.DottedQuadAccepted` proves a rendered quad is
  accepted exactly when its first value is not 0. `WebUrl.IpUrl` proves that
  `http://` followed by a quad with first value 1..255 is a URL.
- **Octets versus characters.** The comments give the limits in octets: 63 for
  a label (src/utils/Validator.kt:46, citing section 2.3.4 of RFC 1035), 64 for
  the email local part and 255 for the email domain (src/utils/Validator.kt:90-91
  and 97-98, citing section 4.5.3.1.1 and section 4.5.3.1.2 of RFC 5321). The
  patterns count characters. `HostName.IriLabelOver63Octets` shows an accepted
  label of 126 UTF-8 octets, `Email.LocalPartOver64Octets` an accepted local
  part of 128, and `Email.EmailDomainOver255Octets` an accepted domain of 379.
- **Spaces in `UCS_CHAR`.** The comment at src/utils/Validator.kt:13 says the
  class excludes space characters, but the subtraction at :33 lists only some.
  U+1680 (OGHAM SPACE MARK) and U+205F (MEDIUM MATHEMATICAL SPACE) lie in the
  first range and are kept, so they are label characters and can appear inside
  labels and local parts. `Chars.UcsCharKeepsSomeSpaces` proves this.
- **Java version.** `UCS_CHAR` subtracts the spaces with a nested negated class
  inside an intersection. The model uses the Java 9 and later reading, where
  U+2000 to U+200A are excluded along with the other listed spaces.

## Model

| member | source | states |
|---|---|---|
| Chars.IsUcsChar | src/utils/Validator.kt:15-33 | The characters of `UCS_CHAR`: one of the seventeen listed ranges and none of U+00A0, U+2000-200A, U+2028, U+2029, U+202F and U+3000. |
| Chars.UcsCharKeepsSomeSpaces | src/utils/Validator.kt:12-38 | U+1680 and U+205F, both Unicode space separators, are UCS characters and label characters, contrary to the comment that the class excludes spaces. |
| Chars.IsLabelChar | src/utils/Validator.kt:35-38 | The characters of `LABEL_CHAR`: ASCII letters and digits, and UCS characters. |
| Chars.IsTldChar | src/utils/Validator.kt:40-43 | The characters of `TLD_CHAR`: ASCII letters and UCS characters, with no digits. |
| Chars.UcsRangesByPlane | src/utils/Validator.kt:15-32 | The seventeen listed ranges are exactly the non-surrogate code points of planes 0 to D below xFFFE, outside U+0000-009F, U+D800-F8FF, U+FDD0-FDEF and U+FFF0-FFFF, plus U+E1000-EFFFD. |
| Chars.UcsCharIsNotAscii | src/utils/Validator.kt:12-33 | Every UCS character is at U+00A1 or above, and none is a `\s` space or a line terminator. |
| Chars.UcsCharEdges | src/utils/Validator.kt:15-33 | U+00A0, U+2000, U+200A, U+3000, U+1FFFE, U+1FFFF, U+FDD0, U+FFFD and every code point from U+E0000 to U+E0FFF lie outside the class; U+00A1, U+200B, U+3001, U+1FFFD and U+E1000 lie inside it. |
| Ipv4.IsIpAddress | src/utils/Validator.kt:6-10 | Whole-string matches of `IP_ADDRESS_STRING`: a first, two middle and a last octet alternative, separated by dots. |
| Ipv4.FirstOctetText | src/utils/Validator.kt:7 | The first-octet alternatives accept exactly the octet spellings other than "0": "000" to "255" with leading zeros on three digits, "10" to "99", and "1" to "9". |
| Ipv4.MiddleOctetText | src/utils/Validator.kt:7-9 | The second and third octet alternatives accept exactly one to three digits of value at most 255, with no leading zero on two digits. |
| Ipv4.LastOctetText | src/utils/Validator.kt:9-10 | The last-octet alternatives accept exactly the same spellings as a middle octet. |
| Ipv4.IpAddressBySplit | src/utils/Validator.kt:6-10 | A string matches the nested alternatives exactly when it has four dot-separated pieces that match the first, middle, middle and last octet alternatives. |
| Ipv4.IpAddressOctets | src/utils/Validator.kt:6-10 | An IPv4 literal is exactly four dot-separated octets, each of one to three digits with value at most 255 and no two-digit leading zero, where the first octet is not the single "0". |
| Ipv4.DottedQuadAccepted | src/utils/Validator.kt:6-10 | The usual rendering of four values in 0..255 is accepted exactly when the first value is not 0. |
| HostName.IsIriLabel | src/utils/Validator.kt:48-49 | Whole-string matches of `IRI_LABEL`: a label character, then optionally up to 61 label characters or hyphens and a closing label character. |
| HostName.IriLabelLength | src/utils/Validator.kt:45-49 | A label is 1 to 63 characters long. |
| HostName.IriLabelOver63Octets | src/utils/Validator.kt:45-49 | 63 copies of U+00E9 form an accepted label of 126 UTF-8 octets, above the 63 octets the comment cites. |
| HostName.IriLabelShape | src/utils/Validator.kt:48-49 | A label is exactly a string of 1 to 63 label characters or hyphens that neither starts nor ends with a hyphen. |
| HostName.IsPunycodeTld | src/utils/Validator.kt:54 | Whole-string matches of `PUNYCODE_TLD`: "xn--", up to 58 word characters or hyphens, then a word character. |
| HostName.PunycodeTldLength | src/utils/Validator.kt:51-54 | A Punycode TLD is 5 to 63 characters long. |
| HostName.IsTld | src/utils/Validator.kt:56 | Whole-string matches of `TLD`: a Punycode TLD or 2 to 63 TLD characters. |
| HostName.TldShape | src/utils/Validator.kt:56 | A TLD is 2 to 63 host characters without a dot. The plain form has no digit or hyphen. A Punycode TLD is never also a plain TLD. |
| HostName.IsHostName | src/utils/Validator.kt:58 | Whole-string matches of `HOST_NAME`: one or more labels each followed by a dot, then a TLD. |
| HostName.HostNameBySplit | src/utils/Validator.kt:58 | A string is a host name exactly when its pieces between dots are at least two, every piece but the last is a label, and the last is a TLD. |
| HostName.HostNameSplits | src/utils/Validator.kt:58 | Splitting a host name at its dots gives at least two pieces: labels, then a TLD. |
| HostName.SplitsToHostName | src/utils/Validator.kt:58 | A string whose dot-separated pieces are labels followed by a TLD is a host name. |
| HostName.AfterLabelShape | src/utils/Validator.kt:56-58 | What follows the first label and its dot, whether a TLD or another host name, has at least 2 characters and does not end with a dot. |
| HostName.HostNameShape | src/utils/Validator.kt:58 | A host name has at least 4 characters, contains a dot and does not end with one. |
| HostName.HostNameChars | src/utils/Validator.kt:58 | Every character of a host name is a label character, '-', '_' or '.'. |
| HostName.IsDomainName | src/utils/Validator.kt:60 | Whole-string matches of `DOMAIN_NAME_STR`: a host name or an IPv4 literal. |
| HostName.DomainNameChars | src/utils/Validator.kt:60 | A host name or IPv4 literal is non-empty and made of label characters, '-', '_' and '.'. |
| WebUrl.IsProtocol | src/utils/Validator.kt:62 | Whole-string matches of `PROTOCOL`: "http", "https" or "rtsp" in any ASCII letter case, then "://". |
| WebUrl.ProtocolByLowerCase | src/utils/Validator.kt:62 | A scheme is accepted exactly when its ASCII lower-casing is "http://", "https://" or "rtsp://". |
| WebUrl.ProtocolCaseInsensitive | src/utils/Validator.kt:62 | Two strings with the same ASCII lower-casing are both accepted schemes or both rejected. |
| WebUrl.EqualsIgnoringCaseByLower | src/utils/Validator.kt:62 | Two strings are equal under `(?i)` ASCII folding exactly when their ASCII lower-casings are equal. |
| WebUrl.LowerAsciiIdempotent | src/utils/Validator.kt:62 | Lower-casing the ASCII letters twice gives the same string as once. |
| WebUrl.IsUserInfo | src/utils/Validator.kt:67-68 | Whole-string matches of `USER_INFO`: 1 to 64 user units, optionally ':' and 1 to 25 user units, then '@'. |
| WebUrl.UserUnitsShape | src/utils/Validator.kt:67-68 | n user-information units span n to 3n characters, with no '@' and no ':'. |
| WebUrl.UserUnitsUnique | src/utils/Validator.kt:67-68 | A string splits into user-information units in only one way, so its unit count is fixed. |
| WebUrl.UserInfoShape | src/utils/Validator.kt:67-68 | User information is 2 to 269 characters long and its only '@' is the last character. |
| WebUrl.UserUnitsByEscapes | src/utils/Validator.kt:67-68 | A string is n user units exactly when every '%' starts a two-hex-digit escape, every other character is a user character, and n is the length less two per escape. |
| WebUrl.UserFieldByEscapes | src/utils/Validator.kt:67-68 | A user field of at most `most` units is exactly such escaped text whose length less two per escape is 1 to `most`. |
| WebUrl.UserInfoBySplit | src/utils/Validator.kt:67-68 | A string is user information exactly when it ends in '@' and the text before splits at ':' into a field of 1 to 64 units and at most one more field of 1 to 25 units. |
| WebUrl.IsPort | src/utils/Validator.kt:70 | Whole-string matches of `PORT_NUMBER`: ':' then one to five ASCII digits. |
| WebUrl.DigitsArePort | src/utils/Validator.kt:70 | ':' followed by any one to five ASCII digits is a port. |
| WebUrl.IsPathAndQuery | src/utils/Validator.kt:72-73 | Whole-string matches of `PATH_AND_QUERY`: '/' or '?', then any number of path characters or percent escapes. |
| WebUrl.PathUnitsByEscapes | src/utils/Validator.kt:72-73 | A string is a sequence of path units exactly when every character is a path character or a '%' followed by two hexadecimal digits. |
| WebUrl.IsWebUrl | src/utils/Validator.kt:79-81 | Whole-string matches of `WEB_URL`: an optional scheme with optional user information, a domain name, an optional port and an optional path. |
| WebUrl.WebUrlFromParts | src/utils/Validator.kt:79-81 | Every optional scheme, user information after a scheme, host, optional port and optional path concatenate to a URL. |
| WebUrl.WebUrlToParts | src/utils/Validator.kt:79-81 | Every URL is such a concatenation of parts. |
| WebUrl.NoUserInfoWithoutScheme | src/utils/Validator.kt:79-81 | In a URL that does not start with a scheme, every '@' comes after a '/' or '?' that opens the path, so user information needs a scheme. |
| WebUrl.AtSignsAfterPathStart | src/utils/Validator.kt:70-73 | In a host of host characters, an optional port and an optional path, every '@' comes after the '/' or '?' that opens the path. |
| WebUrl.AnyFiveDigitPort | src/utils/Validator.kt:70-81 | A host with any one to five digits as port is a URL, with or without a scheme; values above 65535 are not rejected. |
| WebUrl.IpUrl | src/utils/Validator.kt:6-81 | "http://" followed by a dotted quad whose first value is 1 to 255 is a URL. |
| Email.IsEmailChar | src/utils/Validator.kt:83-87 | The characters of `EMAIL_CHAR`: label characters, '+', '-', '_', '%' and the apostrophe. |
| Email.LocalPartOmitsSpecials | src/utils/Validator.kt:83-94 | No character of an accepted local part is '#', '&', '~', '!', '^', the backquote, '{', '}', '/', '=', '$', '*', '?', the vertical bar or the double quote, so quoted local parts are rejected. |
| Email.IsLocalPart | src/utils/Validator.kt:93-94 | Whole-string matches of `EMAIL_ADDRESS_LOCAL_PART`: an email character, then optionally up to 62 email characters or dots and a closing email character. |
| Email.LocalPartLength | src/utils/Validator.kt:89-94 | A local part is 1 to 64 characters long. |
| Email.LocalPartShape | src/utils/Validator.kt:93-94 | A local part is exactly a string of 1 to 64 email characters or dots that neither starts nor ends with a dot. |
| Email.ConsecutiveDotsInLocalPart | src/utils/Validator.kt:93-94 | "a..b" is a local part; ".ab" and "ab." are not. |
| Email.LocalPartOctets | src/utils/Validator.kt:89-94 | An accepted local part takes at most 256 UTF-8 octets, four per character. |
| Email.LocalPartOver64Octets | src/utils/Validator.kt:89-94 | 64 copies of U+00E9 form an accepted local part of 128 UTF-8 octets, above the 64 octets the comment cites. |
| Email.LookaheadIsLengthBound | src/utils/Validator.kt:100 | On host characters, the look-ahead holds exactly when the length is 1 to 255. |
| Email.IsEmailDomain | src/utils/Validator.kt:100 | Whole-string matches of `EMAIL_ADDRESS_DOMAIN`: 1 to 255 characters other than line terminators followed by a space character, the end of the input or a final line terminator, and the whole string a host name. |
| Email.EmailDomainLength | src/utils/Validator.kt:96-100 | An email domain is exactly a host name of at most 255 characters. |
| Email.EmailDomainOver255Octets | src/utils/Validator.kt:96-100 | Two labels of 63 copies of U+4E00 joined by a dot form an accepted domain of 379 UTF-8 octets, above the 255 octets the comment cites. |
| Email.IsAutolinkEmail | src/utils/Validator.kt:108-112 | Whole-string matches of `AUTOLINK_EMAIL_ADDRESS`: a local part, '@', then an email domain. |
| Email.AutolinkEmailAt | src/utils/Validator.kt:108-112 | Given a position p holding '@', an address is accepted exactly when the text before p is a local part and the text after p is a host name of at most 255 characters. The split is the only '@'. |
| Email.IsSimpleEmail | src/utils/Validator.kt:114-122 | Whole-string matches of `EMAIL_ADDRESS`: 1 to 256 characters of `[A-Za-z0-9+._%-]`, '@', a first label of 1 to 65 characters, then one or more '.'-led labels of 1 to 26. |
| Email.SimpleTailBySplit | src/utils/Validator.kt:118-121 | The repeated group is exactly a '.' followed by dot-separated labels of 1 to 26 characters. Each label starts with an ASCII letter or digit and continues with letters, digits or hyphens. |
| Email.SimpleTailSplits | src/utils/Validator.kt:118-121 | The repeated group, read after its leading '.', splits at its dots into labels of 1 to 26 characters. |
| Email.SplitsToSimpleTail | src/utils/Validator.kt:118-121 | A '.' followed by dot-separated labels of 1 to 26 characters matches the repeated group. |
| Email.SimpleDomainBySplit | src/utils/Validator.kt:117-121 | The text after '@' is exactly at least two dot-separated labels: the first of 1 to 65 characters, the others of 1 to 26. |
| Email.SimpleEmailAt | src/utils/Validator.kt:114-122 | Given a position p holding '@', `EMAIL_ADDRESS` matches exactly when 1 to 256 characters from `[A-Za-z0-9+._%-]` precede p and such a domain follows it. The split is the only '@'. |

## Left out

- `WORD_BOUNDARY` and unanchored search (src/utils/Validator.kt:64-65, 80, 109-111): every pattern is matched against a whole string. At both ends of the input the boundary group always matches through its `$` or `^` alternative, so it adds nothing there. Matches inside surrounding text depend on that text and are not modelled.
- The look-ahead's `^` alternative (src/utils/Validator.kt:100) is kept in the wording but cannot hold after an '@', and the model drops it.
- Java strings are UTF-16. A lone surrogate has no Dafny `char`, so such strings are outside the model. The surrogate pairs in `UCS_CHAR` are modelled as the supplementary code points they encode.
- The Java 8 reading of the nested negated class in `UCS_CHAR`, which keeps U+2000 to U+200A, is not modelled.
- src/utils/PasswordHash.kt is not part of this model: it is an HMAC-SHA1 computed by the platform's `javax.crypto.Mac`, a foreign call.
- src/Application.kt, src/users/UserRouting.kt, src/users/User.kt, src/db/DbInMemory.kt and src/db/DbInFile.kt are not part of this model. They are server wiring, an HTTP handler whose data-access object is not shown, a record whose default id is random, and database connection handles.
- Java's regex engine matches `(?:[…]|%XX)*` in `PATH_AND_QUERY` (src/utils/Validator.kt:73), `(IRI_LABEL\.)+` in `HOST_NAME` (src/utils/Validator.kt:58) and `(\.…)+` in `EMAIL_ADDRESS` (src/utils/Validator.kt:118-121) by backtracking recursion, one stack frame per repetition, and throws `StackOverflowError` on long enough inputs. The engine's stack limit is not modelled: the predicates accept inputs of any length that the grammar accepts.
- WebUrl.IpUrl: shows that URLs with first octet 1 to 255 are accepted. It does not prove that `http://0.1.2.3` is rejected as a whole URL; that is proved only for the IPv4 literal itself, by Ipv4.DottedQuadAccepted.
