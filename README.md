# SRMS core in Dafny

SRMS is a service-request management system: an Electron desktop
application whose embedded Express server keeps public inquiries,
requirements, sections and users in MongoDB, and whose Vue client caches
API answers, builds API URLs, labels roles, picks a seasonal effect and
remembers the theme and the signed-in user. This project models its core
and proves properties of the model:

- the inquiry listing handler (page/limit/skip parsing, comma-list
  filters, the role-dependent query, pagination metadata) and the Inquiry
  model's sequential display ids `INQ - NNNNN`;
- the requirement, section and user routes over their collections, held as
  tables in classes whose methods change them, together with their schema
  constraints (required fields, unique indexes);
- the dashboard statistics, and the `verifyToken` and `isAdmin`
  middlewares;
- the client's TTL cache, API base URL, role labels, seasons, and the
  theme and user-session stores over one persistent key-value store.

JavaScript's own string and number operations are modelled once in
`JsText`: `trim`, `split` with a non-empty separator, `parseInt` with and
without radix 10, `Number(string)` for finite literals, `String(n)` and
`padStart`. The database is a value (`InquiryQuery.Db`) for the listing
and a class per collection for the routes that write. A request body field
is a string, and the empty string stands for a falsy or absent one. Foreign
calls are parameters: `jwt.verify` is `verify`, bcrypt's hash and compare
are `hash` and `matches`, the regular expression of
`invalidatePattern` is `matches`, the clock is `now`, and the month of a
timestamp is `monthOf`.

Module layout: `Wrappers` (Option), `JsText`, `Records` (documents,
replies, newest-first sort, filtering), `InquiryQuery`, `InquiryId`,
`TtlCache`, `Middleware`, `Dashboard`, `RequirementTable`, `SectionTable`,
`UserTable`, `HttpBase`, `Roles`, `Seasons`, `KeyValue`, `ThemeStore`,
`UserStore`.

Two behaviours of the code as written are worth knowing. For section staff
the listing cuts the page before it drops records from other sections, and
reports as `total` the length of what is left (`InquiryQuery.ListInquiries`
states exactly this). Registration never succeeds (see Findings).

## Model

| member | source | states |
|---|---|---|
| JsText.Trim | client/src/api/http.js:10-11 | the result is no longer than the input and neither starts nor ends with whitespace |
| JsText.TrimSlice | client/src/api/http.js:10-11 | the result is a prefix of what is left after the leading whitespace, which is a suffix of the input: a middle slice |
| JsText.TrimCutsSpaces | client/src/api/http.js:10-11 | everything cut off after the kept slice is whitespace |
| JsText.TrimStart | client/src/api/http.js:10-11 | drops exactly a leading run of whitespace and keeps the rest from a non-whitespace character on |
| JsText.TrimIdempotent | main/routes/inquiry.route.js:59 | trimming twice is trimming once |
| JsText.JoinSplit | main/middleware/auth.js:5 | joining the pieces of a split with the separator gives back the input |
| JsText.SplitPiecesAvoid | main/routes/inquiry.route.js:67 | no piece of a split on a character contains that character |
| JsText.ParseIntOfIntToString | main/models/inquiry.js:28-29 | parseInt reads back the decimal text of every integer, with or without radix 10 |
| JsText.ParseIntPadded | main/models/inquiry.js:28-29 | parseInt in radix 10 ignores leading zeros |
| JsText.PadStartZeros | main/models/inquiry.js:29 | the result has length max(len, width) and is zeros followed by the input |
| JsText.ParseInt | main/routes/inquiry.route.js:47-48 | parseInt: leading whitespace and one sign skipped, a 0x prefix selecting base 16 when no radix is given, the longest run of digits read, NaN (None) when there is none; ParseIntOfIntToString and ParseIntPadded are its properties |
| JsText.Split | main/routes/inquiry.route.js:59 | String.prototype.split on a non-empty separator always gives at least one piece; JoinSplit and SplitPiecesAvoid state the round trip |
| JsText.IntToString | main/models/inquiry.js:29 | String(n): the decimal numeral, with a minus sign for a negative n |
| JsText.StringToNumber | main/routes/dashboard.route.js:38 | Number(text): surrounding whitespace ignored, empty text is 0, 0x/0o/0b literals read in their base, otherwise a signed decimal with fraction and exponent, anything else NaN; StringToNumberOfIntToString reads String(n) back |
| JsText.StringToNumberOfIntToString | main/routes/dashboard.route.js:38 | Number of the decimal text of an integer is that integer |
| Records.StatusCode | main/routes/requirement.route.js:19-22 | a success answers 200 and a caught error 500 |
| Records.NewestFirstIsOrdered | main/routes/inquiry.route.js:100 | sorting by createdAt descending yields a descending order, a permutation of the input |
| Records.NewestFirstMembers | main/routes/inquiry.route.js:147 | the sort keeps exactly the input's records |
| Records.Newest | main/models/inquiry.js:24 | the most recent record exists exactly when the collection is non-empty, and no record is newer |
| Records.Where | main/routes/inquiry.route.js:114 | a filter keeps exactly the records that satisfy the predicate |
| Records.WhereKeepsOrder | main/routes/inquiry.route.js:114 | filtering a newest-first list keeps it newest first |
| InquiryQuery.PagingParameters | main/routes/inquiry.route.js:47-49 | page falls back to 1 and limit to 0 when absent, unparsable or 0; skip is 0 unless limit > 0, then (page-1)*limit |
| InquiryQuery.ParsedOr | main/routes/inquiry.route.js:47-48 | parseInt(p), or d when that is falsy: the default for an absent, unparsable or zero parameter, otherwise the number read; its outcomes are proved in PagingParameters and the PageOf lemmas |
| InquiryQuery.PageOf | main/routes/inquiry.route.js:47 | the page parameter read with default 1 (see PagingParameters) |
| InquiryQuery.LimitOf | main/routes/inquiry.route.js:48 | the limit parameter read with default 0, meaning no limit (see PagingParameters) |
| InquiryQuery.SkipOf | main/routes/inquiry.route.js:49 | (page - 1) * limit for a positive limit, 0 otherwise (see PagingParameters) |
| InquiryQuery.PageCount | main/routes/inquiry.route.js:167 | Math.ceil(total / limit) for a positive limit, 1 otherwise; PageCountIsCeiling proves the ceiling |
| InquiryQuery.PageOfNonNumeric | main/routes/inquiry.route.js:47 | a page of "abc" is read as 1 |
| InquiryQuery.PageOfDigitsThenText | main/routes/inquiry.route.js:47 | a page of " 3rd" is read as 3 (parseInt stops at the first non-digit) |
| InquiryQuery.PageOfHexadecimal | main/routes/inquiry.route.js:47 | a page of "0x1A" is read as 26 (parseInt without a radix) |
| InquiryQuery.PageOfNegative | main/routes/inquiry.route.js:47 | a page of "-2" is kept as -2 |
| InquiryQuery.PageCountIsCeiling | main/routes/inquiry.route.js:167 | pages is the ceiling of total/limit, 0 exactly when total is 0 |
| InquiryQuery.NonEmptyTrimmed | main/routes/inquiry.route.js:67 | the list keeps exactly the non-empty trimmed items |
| InquiryQuery.ParsedCodes | main/routes/inquiry.route.js:59 | the status list holds exactly the items parseInt reads as numbers |
| InquiryQuery.ParseStatusList | main/routes/inquiry.route.js:59 | the status text split on commas and read by ParsedCodes, keeping the numbers |
| InquiryQuery.ParseNameList | main/routes/inquiry.route.js:67 | a comma-separated list split, trimmed and emptied of empty items (NonEmptyTrimmed, NameListItems) |
| InquiryQuery.NameListItems | main/routes/inquiry.route.js:67 | every list item is non-empty, trimmed and free of commas |
| InquiryQuery.AcknowledgementExcludesEmpty | main/routes/inquiry.route.js:74-89 | a record kept by the acknowledgement filter has a non-null, non-empty acknowledgement from the list |
| InquiryQuery.MatchingRespectsSections | main/routes/inquiry.route.js:133-142 | with a section list, every counted record's requirement belongs to a listed section |
| InquiryQuery.BaseFilterMeaning | main/routes/inquiry.route.js:55-89 | the composed filter matches exactly the records the status, assignee and acknowledgement lists ask for, each applied only when its list is non-empty |
| InquiryQuery.CountFilterMeaning | main/routes/inquiry.route.js:130-142 | the count query adds exactly the condition that the requirement lies in a listed section |
| InquiryQuery.Matches | main/routes/inquiry.route.js:55-89 | a record matches the Mongo filter: a listed status code, a listed assignee, a listed non-empty acknowledgement, and a listed requirement id when the count query adds one |
| InquiryQuery.BaseFilter | main/routes/inquiry.route.js:55-89 | each of the three lists becomes a clause only when it is non-empty (BaseFilterMeaning) |
| InquiryQuery.CountFilter | main/routes/inquiry.route.js:130-142 | the base filter plus the requirement ids of the listed sections when a section list is given (CountFilterMeaning) |
| InquiryQuery.Matching | main/routes/inquiry.route.js:130-146 | a record is counted exactly when it is stored, matches the three lists and lies in a listed section when sections are given |
| InquiryQuery.RequirementIdsIn | main/routes/inquiry.route.js:138-139 | the ids fetched are exactly those of the requirements in the listed sections |
| InquiryQuery.Page | main/routes/inquiry.route.js:148-149 | skip then limit: a slice from skip, all of the rest for limit 0, otherwise at most abs(limit) records |
| InquiryQuery.FindUser | main/routes/inquiry.route.js:95 | findById finds the user with that id, or reports that none has it |
| InquiryQuery.Populate | main/routes/inquiry.route.js:103-111 | population keeps every record in place and attaches its requirement (with section) and assignee |
| InquiryQuery.RequirementOf | main/routes/inquiry.route.js:103-107 | a populated requirement is the stored one the inquiry names, in the requester's section for staff; without the staff match a null means no stored requirement has that id |
| InquiryQuery.AssigneeOf | main/routes/inquiry.route.js:108-111 | a populated assignee is the named user's id, first and last name and reference number; null means no assignee or no user with that id |
| InquiryQuery.PopulateKeepsOrder | main/routes/inquiry.route.js:146-157 | population keeps the newest-first order |
| InquiryQuery.BuildFilter | main/routes/inquiry.route.js:55-89 | the filter built step by step matches exactly the records the three lists ask for |
| InquiryQuery.StaffListing | main/routes/inquiry.route.js:94-125 | section staff get the page of matching records with those outside their section dropped, newest first, at most abs(limit) of them |
| InquiryQuery.KeepStaffRecords | main/routes/inquiry.route.js:113-125 | the kept records are those with a requirement in the section and, with a section list, in a listed section; order is kept |
| InquiryQuery.OtherListing | main/routes/inquiry.route.js:128-158 | other roles get total = every match, independent of page and limit, and the page of the newest-first matches; limit 0 with skip 0 returns all |
| InquiryQuery.FetchedFacts | main/routes/inquiry.route.js:146-149 | a fetched page is newest first, drawn from the matches and at most abs(limit) long |
| InquiryQuery.StaffResultFacts | main/routes/inquiry.route.js:113-127 | every kept staff record is in the requester's section and matches the filter; the count is bounded by the limit |
| InquiryQuery.StaffRoute | main/routes/inquiry.route.js:94-127 | section staff: a requester missing from the users collection gives 500, then a negative skip gives 500; otherwise the staff page with total equal to its length |
| InquiryQuery.OtherRoute | main/routes/inquiry.route.js:128-160 | other roles: a negative skip gives 500 exactly; otherwise total counts every match and the page is the populated newest-first slice |
| InquiryQuery.ListInquiries | main/routes/inquiry.route.js:42-173 | no logged-in user gives 500; page and limit echoed; pages from total; other roles: negative skip gives 500, total counts all matches, exact page; section staff: missing user gives 500, total equals the page length |
| InquiryId.FormatId | main/models/inquiry.js:29-30 | an id starts with "INQ - " and is that prefix plus max(5, digits of n) characters long |
| InquiryId.FormatIdAllDigits | main/models/inquiry.js:29-30 | every character after "INQ - " is a decimal digit, and there are at least five of them |
| InquiryId.FirstIdIsOne | main/models/inquiry.js:25 | the first id is the formatted number 1 |
| InquiryId.FormatIdDigits | main/models/inquiry.js:29 | padding never truncates; numbers of 100000 or more give more than five digits |
| InquiryId.SplitFormatted | main/models/inquiry.js:28 | splitting a formatted id on " - " gives "INQ" and its digits |
| InquiryId.SuffixOfFormatted | main/models/inquiry.js:28-30 | round trip: the suffix of FormatId(n) reads back as n |
| InquiryId.NextIdOfFormatted | main/models/inquiry.js:27-30 | after an inquiry numbered n the hook assigns FormatId(n+1) |
| InquiryId.SuffixNumber | main/models/inquiry.js:28 | `parseInt(id.split(' - ')[1], 10)`: the second piece read in radix 10, NaN (None) when there is no second piece; SuffixOfFormatted proves it reads FormatId(n) back as n |
| InquiryId.NextId | main/models/inquiry.js:25-31 | the first id without a latest inquiry or with a falsy inquiryId there, otherwise the prefix and String(number + 1) padded to five digits; NextIdOfFormatted and NextIdOfUnreadable give its two outcomes |
| InquiryId.InquiryCollection.constructor | main/models/inquiry.js:38 | a new collection is empty and well formed |
| InquiryId.NextIdOfUnreadable | main/models/inquiry.js:28-30 | an id without " - " makes the next id "INQ - 00NaN" |
| InquiryId.PreSave | main/models/inquiry.js:22-36 | a document with a non-empty inquiryId keeps it; any other gets the next id |
| InquiryId.FailingPaths | main/models/inquiry.js:7-12 | validation passes exactly when firstName, lastName, requirement and nic are present and a given rating lies in 1..5 |
| InquiryId.StatusOf | main/routes/inquiry.route.js:34-38 | a saved inquiry answers 200 and a failed save 500 |
| InquiryId.InquiryCollection.Create | main/routes/inquiry.route.js:8-39 | validation first, then the hook's id, then the unique indexes; a saved document is appended with status defaulting to 'Pending', and ids stay unique |
| InquiryId.NewestAfterAppend | main/models/inquiry.js:24 | a document created after all others is the newest afterwards |
| InquiryId.ConsecutiveIds | main/models/inquiry.js:22-36 | sequential saves number consecutively: n, n+1, n+2 |
| TtlCache.Lookup | client/src/utils/cache.js:16-29 | a value is returned exactly when the key is present and not older than its ttl |
| TtlCache.Without | client/src/utils/cache.js:46-57 | removing the matching keys keeps exactly the other entries, values unchanged |
| TtlCache.Cache.Set | client/src/utils/cache.js:8-14 | the value is overwritten and the creation time reset; both maps keep the same keys |
| TtlCache.Cache.SetDefault | client/src/utils/cache.js:8 | the default ttl is 300000 |
| TtlCache.Cache.Get | client/src/utils/cache.js:16-29 | the result is the fresh value or null; an expired entry is removed from both maps; nothing else changes |
| TtlCache.Cache.Has | client/src/utils/cache.js:31-33 | has is exactly get returning non-null, with the same eviction |
| TtlCache.Cache.Delete | client/src/utils/cache.js:35-38 | the key leaves both maps |
| TtlCache.Cache.Clear | client/src/utils/cache.js:40-43 | both maps become empty |
| TtlCache.Cache.InvalidatePattern | client/src/utils/cache.js:46-57 | exactly the matching keys are removed from both maps; every other entry, value and timestamp stays |
| TtlCache.Cache.MatchingKeys | client/src/utils/cache.js:48-54 | the keys collected are exactly the stored keys the pattern matches |
| TtlCache.LookupAfterSet | client/src/utils/cache.js:8-28 | after set at t, get at t2 returns the value iff t2 - t <= ttl (an age equal to ttl is fresh) |
| TtlCache.LookupOtherKey | client/src/utils/cache.js:8-14 | set leaves every other key's lookup unchanged |
| TtlCache.StrLessTransitive | client/src/utils/cache.js:65 | the key order used by sort is transitive |
| TtlCache.StrLessTotal | client/src/utils/cache.js:65 | the key order used by sort is total |
| TtlCache.SortByKeySorted | client/src/utils/cache.js:64-65 | sorting gives keys in order and a permutation of the parameters |
| TtlCache.SortedUnique | client/src/utils/cache.js:64-65 | two sorted permutations of the same distinct-key parameters are equal |
| TtlCache.Pieces | client/src/utils/cache.js:66 | each piece is key=value |
| TtlCache.CacheKeyShape | client/src/utils/cache.js:63-69 | empty params give the endpoint alone, otherwise endpoint ? sorted pairs joined with & |
| TtlCache.GenerateCacheKey | client/src/utils/cache.js:63-69 | the endpoint, then `?` and the key-sorted `key=value` pairs joined by `&` when there are any; CacheKeyShape and CacheKeyOrderIndependent state its shape and order independence |
| TtlCache.Cache.constructor | client/src/utils/cache.js:3-6 | both maps start empty |
| TtlCache.CacheKeyOrderIndependent | client/src/utils/cache.js:63-69 | the key does not depend on the parameters' insertion order |
| Middleware.TokenOf | main/middleware/auth.js:5 | the token is the second space-separated piece of the header, absent when there is none |
| Middleware.TokenOfBearer | main/middleware/auth.js:5 | "Bearer <token>" yields the token |
| Middleware.TokenOfWithoutSpace | main/middleware/auth.js:5 | a header without a space yields no token |
| Middleware.VerifyToken | main/middleware/auth.js:4-18 | no or empty token gives 401, failed verification 403, success sets req.user to the payload and calls next; one outcome only |
| Middleware.IsAdmin | main/middleware/auth.js:21-31 | no user gives 401, any role but 'admin' 403, otherwise next |
| Middleware.AdminChain | main/middleware/auth.js:4-31 | both middlewares pass exactly for a verified token whose payload has role 'admin' |
| Dashboard.MonthHistogram | main/routes/dashboard.route.js:23-27 | twelve counters, each the number of inquiries created in that month |
| Dashboard.CountInMonth | main/routes/dashboard.route.js:23-27 | the number of inquiries whose createdAt falls in the month, never more than the inquiries |
| Dashboard.MonthHistogramTotal | main/routes/dashboard.route.js:23-27 | the monthly counts sum to the number of inquiries |
| Dashboard.StatusHistogram | main/routes/dashboard.route.js:30-34 | each key's count is the number of inquiries whose status text is that key ('unknown' for none); absent keys count none |
| Dashboard.StatusHistogramTotal | main/routes/dashboard.route.js:30-34 | the status counts sum to the number of inquiries |
| Dashboard.UnknownStatusShared | main/routes/dashboard.route.js:32 | a missing status and the text 'unknown' land in the same counter |
| Dashboard.CountWorkDone | main/routes/dashboard.route.js:38-39 | the work-done count is at most the number of inquiries |
| Dashboard.StatusKey | main/routes/dashboard.route.js:32 | `String(status ?? 'unknown')`: the stored text, or 'unknown' when it is null (UnknownStatusShared) |
| Dashboard.WorkDone | main/routes/dashboard.route.js:38 | `Number(status) === 2` on the stored text (StatusTwoIsWorkDone) |
| Dashboard.RatingOf | main/routes/dashboard.route.js:40 | Number(rating), or 0 when that is falsy: a missing rating counts as 0 (MissingRatingCounts) |
| Dashboard.SumRatings | main/routes/dashboard.route.js:40 | the reduce over the work-done records; SumRatingsBounds bounds it |
| Dashboard.Average | main/routes/dashboard.route.js:41 | sum / count when the count is non-zero, 0 otherwise; AverageBounds bounds it |
| Dashboard.MissingRatingCounts | main/routes/dashboard.route.js:40 | a work-done inquiry without a rating adds 0 to the sum but 1 to the count |
| Dashboard.SumRatingsBounds | main/routes/dashboard.route.js:40 | the rating sum lies between 0 and 5 times the count when ratings lie in 0..5 |
| Dashboard.AverageBounds | main/routes/dashboard.route.js:41 | the average lies in 0..5 under the same condition |
| Dashboard.StatusTwoIsWorkDone | main/routes/dashboard.route.js:38 | the stored status '2' counts as work done |
| Dashboard.CountByMonth | main/routes/dashboard.route.js:23-27 | the array of twelve counters filled in the loop equals the month histogram |
| Dashboard.CountByStatus | main/routes/dashboard.route.js:30-34 | the counters map filled in the loop equals the status histogram |
| Dashboard.ComputeStats | main/routes/dashboard.route.js:13-50 | counts are the collection sizes, the month and status histograms as specified and summing to the inquiries, the average 0 without work-done inquiries |
| Dashboard.DashboardRoute | main/routes/dashboard.route.js:10-54 | verifyToken's 401/403 come first; after it, a database error gives 500 with the fixed message and the error's text; otherwise all six fields of the response: the three counts, both histograms and the average rating |
| Records.IndexOfId | main/routes/requirement.route.js:53 | finds the position of the record with that id, or reports that none has it |
| Records.FindById | main/routes/inquiry.route.js:103-111 | findById returns a record of the collection with that id, or None exactly when no record has it |
| RequirementTable.OwnPairNoConflict | main/routes/requirement.route.js:68-72 | a record's own pair never conflicts with itself in an update |
| RequirementTable.Requirements.constructor | main/models/requirement.js:11 | a new collection is empty and unique |
| RequirementTable.Requirements.Create | main/routes/requirement.route.js:7-23 | an existing (name, section) gives 400 and no change; otherwise validation, then exactly one record appended; uniqueness kept |
| RequirementTable.Requirements.BySection | main/routes/requirement.route.js:26-38 | exactly that section's records, newest first; 404 when there are none |
| RequirementTable.Requirements.ListAll | main/routes/requirement.route.js:41-48 | every record, newest first |
| RequirementTable.Requirements.GetById | main/routes/requirement.route.js:51-61 | the record with that id, or 404 exactly when none has it |
| RequirementTable.Requirements.Update | main/routes/requirement.route.js:64-92 | a pair held by a different record gives 400 before the existence check; a missing id 404; otherwise name and section overwritten and nothing else changes |
| RequirementTable.Requirements.Delete | main/routes/requirement.route.js:95-105 | exactly the identified record is removed, 404 when absent |
| RequirementTable.UpdateKeepsUnique | main/routes/requirement.route.js:68-82 | an update that passed the duplicate check keeps pairs unique |
| RequirementTable.RemoveKeepsUnique | main/routes/requirement.route.js:97 | removal keeps the table unique and leaves the other records |
| SectionTable.Updated | main/routes/section.route.js:72-80 | a truthy sectionId or name replaces the stored one; other fields keep their values |
| SectionTable.RequirementsOf | main/routes/section.route.js:34 | exactly the requirements whose section is the section's id, newest first |
| SectionTable.Sections.Create | main/routes/section.route.js:8-25 | an existing sectionId gives 400 and nothing is added; otherwise validation and one section appended; uniqueness kept |
| SectionTable.Sections.constructor | main/models/section.js:18 | a new collection is empty and well formed |
| SectionTable.Sections.GetById | main/routes/section.route.js:49-59 | the section with that id, or 404 exactly when none has it |
| SectionTable.Sections.Update | main/routes/section.route.js:62-87 | a missing id gives 404; a supplied, different and taken sectionId gives 400 and nothing is saved; otherwise the fields Updated describes; uniqueness kept |
| SectionTable.Sections.Delete | main/routes/section.route.js:90-100 | only the section is removed, 404 when absent |
| SectionTable.Sections.ListWithRequirements | main/routes/section.route.js:28-46 | each section in order, paired with exactly its requirements, newest first |
| SectionTable.UpdateKeepsWellFormed | main/routes/section.route.js:72-82 | an accepted update keeps sectionIds unique and required fields filled |
| SectionTable.RemoveKeepsWellFormed | main/routes/section.route.js:92 | removal keeps the table well formed |
| UserTable.SchemaFailures | main/models/user.js:4-14 | validation passes exactly when every required field, userRole included, is present |
| UserTable.Users.constructor | main/models/user.js:30 | a new collection is empty and unique |
| UserTable.RegistrationAlwaysRejected | main/routes/auth.js:23-24 | the document register builds always fails validation on userRole |
| UserTable.Users.RegisterAsWritten | main/routes/auth.js:7-30 | a taken userName gives 400, then a taken referenceNo 400; every other request fails with 500 and nothing is stored |
| UserTable.Users.CheckFree | main/routes/auth.js:12-21 | no refusal exactly when both names are free; otherwise the userName refusal comes before the referenceNo refusal, each with its own message |
| UserTable.Users.UserNameFree | main/routes/auth.js:12 | true exactly when no user has that userName |
| UserTable.Users.ReferenceFree | main/routes/auth.js:18 | true exactly when no user has that referenceNo |
| UserTable.Users.RegisterWithRole | main/routes/auth.js:7-30 | with the role supplied: the same checks, then success exactly when all required fields are present, storing the hashed password |
| UserTable.FindByUserName | main/routes/auth.js:38 | finds a user with that userName, or reports that none has it |
| UserTable.FindByUserNameUnique | main/routes/auth.js:38 | with unique userNames the user found is the one with that name |
| UserTable.LoginResult | main/routes/auth.js:33-61 | the same 400 message for an unknown user and a wrong password; success returns id, names, referenceNo and role of the matching user |
| UserTable.Users.Login | main/routes/auth.js:33-61 | the login answer is LoginResult of the stored users; nothing changes |
| UserTable.PublicOmitsOnlyPassword | main/routes/auth.js:66 | the listing projection drops the password and nothing else |
| UserTable.Users.ListUsers | main/routes/auth.js:64-71 | every user in order, without the password |
| UserTable.Assigned | main/routes/auth.js:99-103 | each truthy body field replaces the stored one; unsupplied fields are unchanged |
| UserTable.AssignedIdempotent | main/routes/auth.js:99-103 | an empty body assigns nothing, and repeating an update changes nothing more |
| UserTable.Stored | main/models/user.js:17-23 | the password is hashed exactly when the save modified it; no other field changes |
| UserTable.Users.Update | main/routes/auth.js:74-110 | a missing id gives 404; a supplied, different and taken userName or referenceNo gives 400 and nothing is saved; otherwise assignment, validation, hashing and save; uniqueness kept |
| UserTable.UpdateKeepsUnique | main/routes/auth.js:82-97 | an update that passed both checks keeps ids, userNames and referenceNos unique |
| UserTable.RegisteredCanLogIn | main/routes/auth.js:38-56 | a user stored with a hashed password can then log in with that password |
| HttpBase.StripTrailingSlash | client/src/api/http.js:11 | at most one trailing slash is removed |
| HttpBase.BaseUrl | client/src/api/http.js:4-12 | a string with non-empty trimmed content gives that content without one trailing slash; anything else gives http://127.0.0.1:3000 |
| HttpBase.OnlyOneSlashStripped | client/src/api/http.js:11 | a value ending in two slashes keeps one |
| HttpBase.DoubleSlashExample | client/src/api/http.js:11 | 'x//' becomes 'x/' |
| HttpBase.WhitespaceIgnored | client/src/api/http.js:10-11 | surrounding whitespace makes no difference |
| HttpBase.GetApiUrl | client/src/api/http.js:22-25 | the base, one slash, then the path without its leading slash |
| HttpBase.LeadingSlashOptional | client/src/api/http.js:22-25 | getApiUrl('/x') equals getApiUrl('x'), and getApiUrl() is the base followed by '/' |
| Roles.RoleLabel | client/src/utils/constants.js:2-11 | a known role gives its label, an unknown truthy role itself, a falsy one '-'; never empty |
| Roles.KnownLabels | client/src/utils/constants.js:2-8 | the five known roles and their labels |
| Roles.RoleLabelIdempotent | client/src/utils/constants.js:11 | labelling a label changes nothing |
| Seasons.SeasonByKey | client/src/effects/index.js:7-12 | a key names a season exactly when it is one of the four table keys |
| Seasons.EffectOf | client/src/effects/index.js:7-12 | the name and icon of each season's effect; AllSeasonsAgree ties each key to its own effect |
| Seasons.CurrentSeason | client/src/effects/index.js:15-29 | December to February is winter, March to May spring, June to August summer, September to November autumn |
| Seasons.SeasonConfig | client/src/effects/index.js:32-35 | a truthy name is looked up as given and an unknown one yields nothing; otherwise the current season's effect |
| Seasons.AllSeasons | client/src/effects/index.js:38-44 | one entry per table key, in table order, with its effect's name and icon |
| Seasons.AllSeasonsAgree | client/src/effects/index.js:7-12 | four entries, winter to autumn, and each entry's key yields its name and icon |
| KeyValue.Lookup | client/src/stores/theme.js:14 | the stored value exactly when the key is present |
| KeyValue.LookupAfterSet | client/src/stores/theme.js:14-43 | a value set reads back, other keys are untouched, a deleted key is absent |
| KeyValue.KeyValueStore.Get | client/src/stores/theme.js:14 | reads the value under the key, changing nothing |
| KeyValue.KeyValueStore.Set | client/src/stores/theme.js:39 | the key now holds the value; nothing else changes |
| KeyValue.KeyValueStore.Delete | client/src/stores/user.js:38 | the key is removed; nothing else changes |
| ThemeStore.ThemeClasses | client/src/stores/theme.js:56-66 | exactly one of dark-theme and light-theme, matching the flag, and other classes untouched |
| ThemeStore.SavedIsDark | client/src/stores/theme.js:24-29 | dark exactly when the saved value is the text 'dark' |
| ThemeStore.ThemeText | client/src/stores/theme.js:39 | 'dark' exactly for the dark flag |
| ThemeStore.LoadAfterSave | client/src/stores/theme.js:24-47 | a flag saved and read back is the same flag |
| ThemeStore.ApplyIdempotent | client/src/stores/theme.js:56-66 | applying the theme twice is applying it once |
| ThemeStore.Theme.constructor | client/src/stores/theme.js:4-6 | the initial state is light |
| ThemeStore.Theme.ApplyTheme | client/src/stores/theme.js:56-66 | the root's classes become ThemeClasses of the flag |
| ThemeStore.Theme.LoadTheme | client/src/stores/theme.js:9-32 | the flag from the saved value, then the theme applied |
| ThemeStore.Theme.SetTheme | client/src/stores/theme.js:34-50 | the flag set, 'dark' or 'light' saved, the theme applied |
| ThemeStore.Theme.ToggleTheme | client/src/stores/theme.js:52-54 | the flag flipped, saved and applied |
| ThemeStore.SetThenLoad | client/src/stores/theme.js:34-47 | setTheme(b) followed by loadTheme leaves the flag b |
| UserStore.OrNull | client/src/stores/user.js:17 | an absent or empty value becomes null, any other is kept |
| UserStore.SessionOf | client/src/stores/user.js:14-17 | the full name is first name, a space and last name; the image is null when absent |
| UserStore.Loaded | client/src/stores/user.js:22-31 | a stored record replaces the four fields; nothing stored leaves them alone |
| UserStore.LoadRestoresSession | client/src/stores/user.js:19-29 | loading after setUser restores the same four fields |
| UserStore.Session.constructor | client/src/stores/user.js:6-11 | all four fields start null |
| UserStore.Session.SetUser | client/src/stores/user.js:13-20 | the four fields from the user, saved under 'user' |
| UserStore.Session.LoadUser | client/src/stores/user.js:22-31 | returns what is stored under 'user' and takes its fields when it is truthy |
| UserStore.Session.Logout | client/src/stores/user.js:33-39 | all four fields null and 'user' deleted |
| UserStore.SetThenLoad | client/src/stores/user.js:19-29 | a session set survives a restart |
| UserStore.LogoutThenLoad | client/src/stores/user.js:33-39 | after logout nothing is loaded back |

## Findings

| source | as written | input that shows it | evidently intended | confidence | as-written member | corrected member |
|---|---|---|---|---|---|---|
| main/routes/auth.js:23-24 | the new User gets only firstName, lastName, userName, referenceNo and password, but the schema requires userRole (main/models/user.js:8), so save always throws and the route answers 500 | any registration whose userName and referenceNo are free, for example firstName "A", lastName "B", userName "ab", referenceNo "R1", password "p" | the role is taken from the request body, so a complete registration is stored and the user can log in | high (not executed) | UserTable.Users.RegisterAsWritten, UserTable.RegistrationAlwaysRejected | UserTable.Users.RegisterWithRole, UserTable.RegisteredCanLogIn |

## Left out

- ObjectId casting: ids are strings, so a malformed id (a CastError and a 500 in the routes) is not modelled.
- Query parameters are single strings or absent: Express turns a repeated key (`?status=1&status=2`) into an array and a bracketed key into an object, on which `split` throws and the route answers 500, while parseInt reads an array's first element; these shapes are not modelled.
- An absent request body field is the empty string; the difference between undefined, null and '' in Mongoose queries is not modelled.
- Keys inherited from JavaScript's Object prototype ('toString' and the like) are not modelled; they would affect ROLE_LABELS lookups, getSeasonConfig and the statusCounts object.
- Floating point: parseInt beyond 2^53, the rounding of Number and of the average rating are exact in the model.
- Dates and time zones: the month of an inquiry is the parameter monthOf, the current month a parameter of CurrentSeason.
- Concurrency: saves are sequential; two concurrent creates could read the same latest inquiry, and the asynchronous order of the client stores is not modelled.
- jwt.verify, bcrypt's hash (with its random salt) and compare, and the RegExp of invalidatePattern are parameters; an invalid pattern that makes RegExp throw is not modelled.
- The trivial inquiry routes (GET, PUT and DELETE by id) pass straight through to the store and are not modelled.
- Error message texts of caught exceptions are modelled as causes (ValidationError with its paths, DuplicateKey), not as Mongoose's strings.
- visitedDate and updatedAt are not modelled; createdAt comes from the parameter now.
- The status filter compares the stored text with the decimal text of each listed number; other casts of a String path are not modelled.
- Ties in createdAt keep collection order; the database's order for ties is unspecified.
- JavaScript strings are UTF-16 and sort by code units; the model's strings are sequences of characters compared character by character.
- localStorage exceptions and the choice between the Electron store and localStorage are collapsed into one key-value store that never fails.
- The Vue UI, the router, toasts, the axios instance and the effects' particle and animation data are not modelled.
- Dashboard.DashboardRoute: a database failure is the parameter databaseError (the thrown error's message), not a failure of a particular query.
