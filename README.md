# Phonebook core in Dafny

This project models the core of the phonebook. The repository ships it twice, once as a servlet/JAX-RS application over JPA and once as a Spring application over Hibernate. The core has four parts.

- **Canonicalising**: a raw phone number such as `+09(876)543-21-00` is stored as its digits only (`replaceAll("\\D", "")`).
- **Masking**: the raw number's layout is stored once, as a shared mask row such as `+XX(XXX)XXX-XX-XX` (`replace("X", "").replaceAll("\\d", "X")`). Numbers are displayed again by pouring the stored digits into the mask's `X` placeholders (`getNumber` / `getPhoneNumber`).
- **Find-or-create of reference rows**: masks and phone types are looked up by exact value and created only when missing, so equal values share one row.
- **The service operations** of both `PhonebookService` classes: adding a number, looking numbers up and deleting them, the contact search by exact or partial number, and the contact create, update and upsert operations.

Module layout:

- `wrappers.dfy`: `Option`.
- `phone_text.dfy` (`PhoneText`): canonicalising, mask derivation and the display formatter. This is the pure part, specified by recursive functions. The formatter's char-array loop is the method `FillMask`, proved against them. The file also holds the search parameter the services build (the digits, or `'%' + digits + '%'`), SQL `LIKE` as a recursive predicate, and the proofs of what that parameter matches.
- `entities.dfy` (`Entities`): the persisted entities as values, and the column limit of their `@Size(min = 1, max = 45)` annotations, counted in UTF-16 code units as Java's `String.length()` counts them.
- `store.dfy` (`Store`): the database both services talk to, as one value. It holds:
  - the contact table, the phone-number table in insertion order, and the mask and type tables;
  - the store invariant `Valid`;
  - find-or-create as a specification function;
  - the named queries as functions over the phone-number table;
  - the contact search.
- `servlet_domain.dfy`, `spring_domain.dfy`: the two `PhoneNumber` entity classes and their display getters.
- `servlet_service.dfy`, `spring_service.dfy`: the two `PhonebookService` classes. Each holds the database in a field `db`. Every state-changing operation states its whole new database in terms of the old one, and keeps `Valid`.

Where the behaviour of the code differs from the prose design of the system, the model follows the code.

- Exact reproduction needs a raw number without a literal `X`. The round trip gives back the raw number minus its literal `X` characters, because mask derivation removes them first (`RoundTrip`). For the numbers both test suites use, that is the raw number itself (`RoundTripExample`).
- A search without digits is not an empty result. The servlet search refuses a null or empty query (`None`); the Spring search treats `""` like any other query without digits. A query with no digit at all in partial mode becomes the pattern `%%`, which matches every stored number (`EmptyPartialMatchesAll`).
- The servlet `updateContact` on an unknown id creates a contact under the store's next id. Nothing makes that id differ from the requested one: when the requested id happens to be the next one, the "created" contact carries the requested id.
- The servlet `updateContact` refuses a request only when both names it receives are non-null and empty. It checks before merging, so a merge can still leave both names empty.

## Model

| member | source | states |
|---|---|---|
| PhoneText.Canonical | servlets/src/java/org/syso/phonebook/service/PhonebookService.java:310 | the canonical form holds the digits 0-9 only and is no longer than the raw number |
| PhoneText.CanonicalAppend | servlets/src/java/org/syso/phonebook/service/PhonebookService.java:310 | the digits of `a + b` are the digits of `a` followed by those of `b`, so the input's digit order is kept |
| PhoneText.CanonicalFixedPoint | servlets/src/java/org/syso/phonebook/service/PhonebookService.java:367 | a string is its own canonical form if and only if it is made of digits only |
| PhoneText.CanonicalIdempotent | spring/src/java/org/syso/phonebook/service/PhonebookService.java:194 | canonicalising twice (addNumber passes already canonical digits to findPhoneNumber) equals canonicalising once |
| PhoneText.CanonicalEmpty | servlets/src/java/org/syso/phonebook/service/PhonebookService.java:310-313 | the canonical form is empty exactly when the raw number has no digit, which is when a number is refused |
| PhoneText.StripX | servlets/src/java/org/syso/phonebook/service/PhonebookService.java:320 | `replace("X", "")` leaves no placeholder and never lengthens the string; `StripXAppend`, `StripXNoPlaceholder` and `StripXLength` pin down exactly which characters it keeps |
| PhoneText.StripXAppend | servlets/src/java/org/syso/phonebook/service/PhonebookService.java:320 | removing the placeholders of `a + b` removes those of `a` and of `b` separately, so every other character is kept in order |
| PhoneText.StripXNoPlaceholder | servlets/src/java/org/syso/phonebook/service/PhonebookService.java:320 | a string without `X` is left unchanged |
| PhoneText.MaskDigits | servlets/src/java/org/syso/phonebook/service/PhonebookService.java:320 | `replaceAll("\\d", "X")` keeps the length, turns every digit into `X`, and keeps every non-digit in place |
| PhoneText.DeriveMaskShape | servlets/src/java/org/syso/phonebook/service/PhonebookService.java:320 | the derived mask has no digit, as many placeholders as the canonical number has digits, and the raw number's other characters in order |
| PhoneText.StripXLength | servlets/src/java/org/syso/phonebook/domain/PhoneNumber.java:108-112 | the guard `mask.length() - mask.replace("X","").length()` is the number of placeholders in the mask |
| PhoneText.SubstituteFills | servlets/src/java/org/syso/phonebook/domain/PhoneNumber.java:114-121 | the filled mask has the mask's length and keeps every non-placeholder character in place; its placeholder positions read back the stored number, each character used once, in order |
| PhoneText.FormatCases | spring/src/java/org/syso/phonebook/domain/PhoneNumber.java:103-123 | no mask gives the stored number; a placeholder count different from its length gives the stored number; otherwise position i holds the mask character, or for the j-th placeholder the j-th stored character |
| PhoneText.FillMask | servlets/src/java/org/syso/phonebook/domain/PhoneNumber.java:114-121 | the char-array loop with its running index j computes exactly the filled mask |
| PhoneText.SubstituteDerived | spring/src/java/org/syso/phonebook/service/PhonebookService.java:110-127 | the derived mask has one placeholder per canonical digit, and filling it with them rebuilds the raw number without literal `X` |
| PhoneText.RoundTrip | servlets/src/java/org/syso/phonebook/service/PhonebookService.java:310-320 | formatting the canonical digits with the derived mask gives back the raw number minus its literal `X` characters |
| PhoneText.RoundTripExample | servlets/test/org/syso/phonebook/service/PhonebookServiceTest.java:197 | `+09(876)543-21-00`, stored and displayed again, comes back unchanged |
| PhoneText.CanonicalOfSubstitute | servlets/src/java/org/syso/phonebook/domain/PhoneNumber.java:114-121 | with a digit-free mask, the digits of a filled mask are the stored number |
| PhoneText.FormatCanonical | spring/src/java/org/syso/phonebook/domain/PhoneNumber.java:115-122 | whenever the mask holds no digit, canonicalising the displayed number gives back the stored digits, in all three formatter cases |
| PhoneText.SearchPatternMatches | servlets/src/java/org/syso/phonebook/service/PhonebookService.java:188-195 | the parameter built from a query, the bare digits or `'%' + digits + '%'`, `LIKE`-matches exactly the stored numbers equal to the query's digits in whole-number mode, and exactly those containing them otherwise |
| PhoneText.LikeLiteral | spring/src/java/org/syso/phonebook/service/PhonebookService.java:289 | a `LIKE` pattern of digits only matches a string if and only if the string equals it |
| PhoneText.LikeContains | spring/src/java/org/syso/phonebook/service/PhonebookService.java:289 | a `LIKE` pattern `%` + digits + `%` matches a string if and only if the string contains those digits as a contiguous run |
| PhoneText.ExactImpliesPartial | spring/src/java/org/syso/phonebook/service/PhonebookService.java:280-284 | a stored number the whole-number parameter matches is also matched by the partial parameter built from the same query |
| PhoneText.EmptyPartialMatchesAll | servlets/src/java/org/syso/phonebook/service/PhonebookService.java:188-195 | a partial query without digits builds the parameter `%%`, which `LIKE`-matches every stored number |
| PhoneText.SubstringSearchExample | spring/src/java/org/syso/phonebook/service/PhonebookService.java:277-289 | a stored 5551234567 is matched by a partial search for 1234 and not by a whole-number one |
| Store.InsertKeepsValid | servlets/src/java/org/syso/phonebook/service/PhonebookService.java:331-356 | storing a digits-only number under the next id, linked to an existing contact, mask and type, keeps the store invariant |
| Store.DigitsFitColumn | servlets/src/java/org/syso/phonebook/domain/PhoneNumber.java:63 | the canonical digits of a number with a digit fit the 45-unit column whenever its derived mask does, since each digit is one UTF-16 unit and one placeholder of the mask |
| Entities.Utf16LengthBounds | servlets/src/java/org/syso/phonebook/domain/PhoneMask.java:65 | Java's `length()` of a string is at least its number of characters and at most twice it |
| Entities.Utf16LengthBmp | servlets/src/java/org/syso/phonebook/domain/PhoneNumber.java:63 | for characters of the Basic Multilingual Plane, such as digits and `X`, `length()` is the number of characters |
| Store.FindOrCreate | servlets/src/java/org/syso/phonebook/service/PhonebookService.java:434-469 | find-or-create keeps the table valid and returns a row holding the value; an existing value adds nothing; a missing one adds exactly one row under the next id and changes no other row |
| Store.FindOrCreateTwice | servlets/src/java/org/syso/phonebook/service/PhonebookService.java:389-426 | deduplication: a second find-or-create of the same value returns the same row and adds nothing |
| Store.FindOrCreateGrowth | spring/src/java/org/syso/phonebook/service/PhonebookService.java:245-266 | the table grows by one row for a missing value and by none for an existing one |
| Store.KeepFirst | spring/src/java/org/syso/phonebook/service/PhonebookService.java:200-203 | the first row of a filtered result is the earliest row of the table that passes the filter |
| Store.WithNumber | spring/src/java/org/syso/phonebook/domain/PhoneNumber.java:54 | `findByPhoneNumber` returns exactly the rows holding the given digits |
| Store.DeleteQuery | spring/src/java/org/syso/phonebook/domain/PhoneNumber.java:56 | the delete query removes exactly the rows whose number and contact id both equal the parameters, and removes at least one row exactly when such a row exists |
| Store.WithoutContact | servlets/src/java/org/syso/phonebook/service/PhonebookService.java:105-106 | the cascade on removing a contact keeps exactly the rows of other contacts |
| Store.MatchingContacts | spring/src/java/org/syso/phonebook/service/PhonebookService.java:289 | `GROUP BY contact_id`: each owner of a matching row appears exactly once, and no one else |
| Store.SearchContacts | spring/src/java/org/syso/phonebook/service/PhonebookService.java:286-292 | the search returns each owner of a matching row once, with the names the contact table holds, and only such owners |
| ServletDomain.PhoneNumber.constructor | servlets/src/java/org/syso/phonebook/domain/PhoneNumber.java:59-75 | the entity holds its key, digits, owner, mask and type as given |
| ServletDomain.PhoneNumber.GetNumber | servlets/src/java/org/syso/phonebook/domain/PhoneNumber.java:102-122 | the display getter returns the formatted number: the stored digits, or the mask filled with them |
| SpringDomain.PhoneNumber.constructor | spring/src/java/org/syso/phonebook/domain/PhoneNumber.java:60-75 | the entity holds its key, digits, owner, mask and type as given |
| SpringDomain.PhoneNumber.GetPhoneNumber | spring/src/java/org/syso/phonebook/domain/PhoneNumber.java:103-123 | the display getter returns the formatted number: the stored digits, or the mask filled with them |
| ServletService.PhonebookService.FindContact | servlets/src/java/org/syso/phonebook/service/PhonebookService.java:83-85 | a contact is found exactly when its id is in the contact table, with the stored names |
| ServletService.PhonebookService.DeleteContact | servlets/src/java/org/syso/phonebook/service/PhonebookService.java:93-123 | corrected: true exactly when the contact existed; then it and all its numbers are gone and nothing else changes; otherwise nothing changes |
| ServletService.PhonebookService.DeleteContactAsWritten | servlets/src/java/org/syso/phonebook/service/PhonebookService.java:100-122 | as written: the contact and its numbers are removed whenever it existed, but on a container-managed EntityManager the `em.close()` at line 113 throws `IllegalStateException`, which the catch turns into false |
| ServletService.PhonebookService.DeletePhoneNumber | servlets/src/java/org/syso/phonebook/service/PhonebookService.java:132-155 | the contact's rows holding the digits of the raw number are removed; true exactly when such a row existed |
| ServletService.PhonebookService.FindContactsByPhoneNumber | servlets/src/java/org/syso/phonebook/service/PhonebookService.java:182-209 | null or empty input gives no list; otherwise the owners of numbers equal to, or containing, the canonical query, each once |
| ServletService.PhonebookService.CreateContact | servlets/src/java/org/syso/phonebook/service/PhonebookService.java:268-298 | refused, with nothing stored, exactly when both names are non-null and empty; otherwise a contact under a fresh positive id, other contacts untouched |
| ServletService.PhonebookService.UpdateContact | servlets/src/java/org/syso/phonebook/service/PhonebookService.java:219-258 | upsert: an unknown id creates a contact under a fresh id; for a known id a null name keeps the stored one and a non-null name replaces it; refused exactly when both names are non-null and empty |
| ServletService.PhonebookService.FindPhoneNumber | servlets/src/java/org/syso/phonebook/service/PhonebookService.java:365-380 | `getSingleResult` over the canonical digits: no row, the only matching row, or more than one match |
| ServletService.PhonebookService.FindPhoneType | servlets/src/java/org/syso/phonebook/service/PhonebookService.java:389-426 | an existing type is returned and nothing is added; a missing one gives null without `createIfNotExists` and is otherwise added once, as find-or-create |
| ServletService.PhonebookService.FindPhoneMask | servlets/src/java/org/syso/phonebook/service/PhonebookService.java:434-469 | an existing mask is returned and nothing is added; a missing one gives null without `createIfNotExists` and is otherwise added once, as find-or-create |
| ServletService.PhonebookService.AddPhoneNumber | servlets/src/java/org/syso/phonebook/service/PhonebookService.java:308-357 | refused with no change when the number has no digit, then when the contact is missing; otherwise exactly one row is added, holding the canonical digits, owned by the contact, linked to the derived mask and the given type; it displays as the raw number minus literal `X` |
| SpringService.PhonebookService.AddContact | spring/src/java/org/syso/phonebook/service/PhonebookService.java:64-73 | the contact is saved under a fresh id with no numbers; success is always reported; existing contacts are untouched |
| SpringService.PhonebookService.UpdateContact | spring/src/java/org/syso/phonebook/service/PhonebookService.java:89-98 | both names of the existing contact are overwritten, null included, and nothing else changes |
| SpringService.PhonebookService.FindPhoneNumber | spring/src/java/org/syso/phonebook/service/PhonebookService.java:192-206 | null exactly when no row holds the canonical digits; otherwise the earliest such row |
| SpringService.PhonebookService.FindPhoneType | spring/src/java/org/syso/phonebook/service/PhonebookService.java:215-237 | an existing type is returned and nothing is saved; a missing one gives null without `createIfNotExists` and is otherwise saved once, as find-or-create |
| SpringService.PhonebookService.FindPhoneMask | spring/src/java/org/syso/phonebook/service/PhonebookService.java:245-266 | an existing mask is returned and nothing is saved; a missing one gives null without `createIfNotExists` and is otherwise saved once, as find-or-create |
| SpringService.PhonebookService.AddNumber | spring/src/java/org/syso/phonebook/service/PhonebookService.java:107-154 | no digit: null, no change. A row of any contact holding the digits: that earliest row, no change. Missing contact: null, no change. Missing type name: null, with the mask already found or created. Otherwise exactly one new row, canonical and linked as in the servlet, displaying as the raw number minus literal `X` |
| SpringService.PhonebookService.DeletePhoneNumberAsWritten | spring/src/java/org/syso/phonebook/service/PhonebookService.java:163-170 | the delete query with the argument bound verbatim; true exactly when a row held that exact text |
| SpringService.PhonebookService.DeletePhoneNumber | spring/src/java/org/syso/phonebook/service/PhonebookService.java:163-170 | corrected: the argument is canonicalised first; the contact's rows holding its digits go, and true exactly when there was one |
| SpringService.PhonebookService.FindContactByNumber | spring/src/java/org/syso/phonebook/service/PhonebookService.java:275-293 | the owners of numbers equal to (`matchWhole`), or containing, the canonical query, each once, with their names |
| SpringService.VerbatimDeleteMissesFormatted | spring/src/java/org/syso/phonebook/service/PhonebookService.java:166-168 | the verbatim delete removes nothing for any argument with a non-digit, since stored numbers are digits only |
| SpringService.DeleteFormattedExample | spring/test/org/syso/phonebook/controller/ContactControllerTest.java:327-331 | a number added as `+09(876)543-21-00` survives deletion by that text and goes when deleted by its digits |

## Left out

- The HTTP front ends, and the JAXB/Jackson serialisation wrappers. Routing, status codes, headers, and the callers' duplicate checks and upsert decisions are glue around the modelled operations.
- Transactions and persistence failures. Every `persist`, `save`, `merge` and `remove` is modelled as succeeding (the failing `em.close()` of the servlet `deleteContact` is a finding below), so the null returns after a failed commit are not modelled. This includes the null checks on a just-created mask or type (servlet lines 321-329, Spring lines 129-131 and 139-141).
- The `@Size(min = 1, max = 45)` column limit, measured in UTF-16 code units (`Utf16Length`): a violation raises a bean-validation exception that escapes the service. The find-or-create operations and the number-adding operations therefore require a value that is already stored or fits the column (`Storable`). The stored digits fit because the mask does.
- The servlet `Contact.findByPhoneNumber` and `Contact.deletePhoneNumber` named queries live in `Contact.java`, which is not part of this model. They are taken to mean:
  - a `LIKE` match of the stored digits, grouped by contact, as in the Spring native query;
  - the same delete as the Spring `PhoneNumber.deletePhoneNumber` query.
- Cascade delete of a contact's numbers is taken from the entity mapping, which is not part of this model.
- PhoneText.Like: the escape character (`\` by default) and the column collation are not modelled; the parameters the services build hold only digits and `%`, and stored numbers only digits.
- Concurrency: the find-or-create race between two requests creating the same mask or type.
- Ids come from store counters that start at 1, in place of database auto-increment. The `PhoneNumberPK(0, contactId)` placeholder id is replaced by the next counter value.
- Entity setters and getters other than the display getters, `findAllContacts`, and the Spring `deleteContact` and `findContactById`. These are single calls on the session with no logic.
- Java null strings: a null name or number is `None`. `addPhoneNumber` and `addNumber` dereference the number, so the model takes it as present.
- SpringService.PhonebookService.FindContactByNumber: a null query dereferenced at Spring line 277 throws a NullPointerException; the model takes the query as present.
- ServletDomain.PhoneNumber.GetNumber, SpringDomain.PhoneNumber.GetPhoneNumber: the placeholder guard compares with the number's length in characters, where Java's `length()` and `charAt` count UTF-16 code units. The two agree on numbers of Basic Multilingual Plane characters, which include every stored number (digits only, `Store.Valid`); a number holding a character above U+FFFF, which no service stores, is not modelled as Java would split it.
- ServletService.PhonebookService.FindPhoneNumber: the `NonUnique` result stands for the `NonUniqueResultException` that escapes `getSingleResult`; the exception itself is not modelled.
- ServletService.PhonebookService.FindPhoneMask, ServletService.PhonebookService.FindPhoneType: `getSingleResult` cannot fail with more than one row, because the store invariant keeps mask and type values unique.
- SpringService.PhonebookService.AddNumber: the missing `PhoneType` object and its missing name are one case (`typeName` is `None`).
- SpringService.PhonebookService.UpdateContact: requires the contact to exist; the source dereferences the looked-up contact and fails with a NullPointerException otherwise.
- SpringService.PhonebookService.AddContact: a contact id supplied by the caller is ignored; the store assigns a new one.
- The order of query results without `ORDER BY` is taken to be table insertion order.

## Findings

| source | as written | input that shows it | evidently intended | confidence | as-written member | corrected member |
|---|---|---|---|---|---|---|
| spring/src/java/org/syso/phonebook/service/PhonebookService.java:163-170 | the raw path argument is bound to the delete query verbatim, but stored numbers are digits only | a contact whose number was added as `+09(876)543-21-00`, then deleted by `+09(876)543-21-00`: no row is removed and false is returned, though the Spring controller test (ContactControllerTest.java:327-331) expects the number to be gone | canonicalise the argument first, as `addNumber` and the servlet `deletePhoneNumber` (servlet line 134) do | medium; not executed | SpringService.PhonebookService.DeletePhoneNumberAsWritten, SpringService.DeleteFormattedExample | SpringService.PhonebookService.DeletePhoneNumber |
| servlets/src/java/org/syso/phonebook/service/PhonebookService.java:113-119 | `em.close()` is called inside the try after the commit; on the container-managed EntityManager both callers inject with `@PersistenceContext`, JPA specifies that `close()` throws `IllegalStateException`, and the catch returns false | delete an existing contact through the servlet or Jersey front end: the contact and its numbers are removed, yet false is returned | do not close a container-managed EntityManager, and report true once the removal is committed | medium; not executed | ServletService.PhonebookService.DeleteContactAsWritten | ServletService.PhonebookService.DeleteContact |
