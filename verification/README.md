# Sections of a subway line

This project models the `Sections` aggregate of a subway-map service. It is written in Dafny and its properties are proved. The aggregate holds the sections of one line. A section is a directed, weighted edge `up -> down` between two stations. The sections are kept as a single simple path. The aggregate provides:

- `insert`: put a new section at the top, at the bottom, or inside an existing section by splitting it;
- the validation `insert` runs first;
- `getSortedStations`: list the stations from the top of the line to the bottom;
- `deleteStation`: drop an end section, or merge the two sections around an interior station.

Modules:

- `Subway`: the value entities. `Station` is compared by id. `Section` has the copy-with-update functions. Also the error kinds `InvalidRequest` and `EntityNotFound`.
- `SectionQueries`: the read-only finders and predicates, both validations, list removal and total distance.
- `SectionsSpec`: value-level definitions of what each operation computes:
  - `Inserted` and `Deleted` give the new section list or the error;
  - `SectionMap` is the up -> down map;
  - `Walk` is the station list the sort builds.
- `Sections`: the class `Sections`. Its `sections: seq<Section>` field is changed in place by `Insert` and `DeleteStation`, each of which then hands back a fresh aggregate holding the same list. Each method is proved to compute its definition. `GetSortedStations`, `MakeSectionMap` and `FindTopStation` keep their loops.
- `Paths`: what "one simple path" means. `PathOf(ss, chain)` holds when `chain` orders the sections of `ss` so that each ends where the next starts and no station repeats. The module also proves reshaping facts about such paths.
- `InsertCases`, `InsertPaths`, `DeletePaths`, `SortedPaths`: the properties of each operation, ending in the headline lemmas:
  - `InsertKeepsPath`, `DeleteKeepsPath` (as written) and `DeletedIntendedKeepsPath` (corrected): on a line that is one simple path, a successful insert or delete leaves one simple path;
  - `InsertKeepsDistancesPositive`, `DeleteKeepsDistancesPositive` and `DeletedIntendedKeepsDistancesPositive`: positive distances stay positive;
  - `SortedStationsOfPath`: on such a line, the sorted list is the path's stations in travel order.
- `CorrectedDelete`: the bottom-station delete defect (see Findings), and the corrected delete `DeletedIntended` with its properties. The class keeps the code as written.

## Model

| member | source | states |
|---|---|---|
| SectionQueries.FindByUpStation | src/main/java/wooteco/subway/domain/Sections.java:109-113 | a found section is on the line and starts at the station; nothing is found iff no section starts there |
| SectionQueries.FindByDownStation | src/main/java/wooteco/subway/domain/Sections.java:85-89 | a found section is on the line and ends at the station; nothing is found iff no section ends there |
| SectionQueries.ValidateSectionToInsert | src/main/java/wooteco/subway/domain/Sections.java:51-69 | passes iff exactly one of the two stations of the new section is on the line; any failure is `InvalidRequest` |
| SectionQueries.ValidateSectionToDelete | src/main/java/wooteco/subway/domain/Sections.java:196-205 | passes iff the line has at least two sections; otherwise `InvalidRequest` |
| SectionQueries.RemoveFirst | src/main/java/wooteco/subway/domain/Sections.java:144 | `List.remove(Object)`: removing a present section shortens the list by one; removing an absent one changes nothing |
| SectionQueries.RemoveFirstContents | src/main/java/wooteco/subway/domain/Sections.java:144 | removal takes out exactly one occurrence of the section and nothing else (multiset difference) |
| SectionsSpec.DownSplitReachable | src/main/java/wooteco/subway/domain/Sections.java:44-48 | when no earlier case of `insert` applies, some section ends at the new down-station, so the last lookup always succeeds |
| SectionsSpec.SectionMap | src/main/java/wooteco/subway/domain/Sections.java:168-174 | the keys are exactly the up-stations; each key maps to the down-station of some section starting at it |
| SectionsSpec.Walk | src/main/java/wooteco/subway/domain/Sections.java:158-163 | `n + 1` entries starting at the start station; each entry is the map's value for the one before it (null when absent) |
| Sections.Sections.constructor | src/main/java/wooteco/subway/domain/Sections.java:21-23 | the new aggregate holds the given list |
| Sections.Sections.Insert | src/main/java/wooteco/subway/domain/Sections.java:29-49 | succeeds iff `Inserted` does, with the same error otherwise and the list untouched; on success a fresh aggregate holds the new list; the receiver holds it too, except for an insert into an empty line, which leaves the receiver empty |
| Sections.Sections.InsertAtTop | src/main/java/wooteco/subway/domain/Sections.java:91-94 | the new section is put in front of the list, and the result holds the same list |
| Sections.Sections.InsertAtBottom | src/main/java/wooteco/subway/domain/Sections.java:115-118 | the new section is put at index `size - 1` (before the last section), and the result holds the same list |
| Sections.Sections.InsertAtUpStationOfMiddle | src/main/java/wooteco/subway/domain/Sections.java:120-129 | the first section starting at the new up-station must be strictly longer, else `InvalidRequest` with nothing changed; otherwise it is replaced by its remainder from the new down-station, of distance `old - new`, followed by the new section |
| Sections.Sections.InsertAtDownStationOfMiddle | src/main/java/wooteco/subway/domain/Sections.java:131-141 | the same for the first section ending at the new down-station; its remainder ends at the new up-station |
| Sections.Sections.InsertAtMiddle | src/main/java/wooteco/subway/domain/Sections.java:143-148 | the old section is removed, then the updated one and the new one are appended |
| Sections.Sections.DeleteStation | src/main/java/wooteco/subway/domain/Sections.java:186-194 | succeeds iff `Deleted` does, with the same error otherwise and the list untouched; on success the receiver and a fresh result hold exactly `Deleted`'s list |
| Sections.Sections.DeleteStationWithoutUpdate | src/main/java/wooteco/subway/domain/Sections.java:207-213 | removes the first section starting at the station; when none does (as at the bottom station), `EntityNotFound` with nothing changed |
| Sections.Sections.DeleteStationWithUpdate | src/main/java/wooteco/subway/domain/Sections.java:215-230 | without a section starting and a section ending at the station, `EntityNotFound` with nothing changed; otherwise both are removed and the merged section (from the upper one's up-station to the lower one's down-station, distances summed) is appended |
| Sections.Sections.GetSortedStations | src/main/java/wooteco/subway/domain/Sections.java:150-166 | empty for an empty line; `EntityNotFound` iff no up-station is free of incoming sections; otherwise the walk of map-size steps from such a station |
| Sections.Sections.MakeSectionMap | src/main/java/wooteco/subway/domain/Sections.java:168-174 | the loop builds exactly `SectionMap` of the list (later sections overwrite earlier ones) |
| Sections.Sections.FindTopStation | src/main/java/wooteco/subway/domain/Sections.java:176-184 | returns some key that is no value; fails with `EntityNotFound` iff there is none |
| Paths.LookupAt | src/main/java/wooteco/subway/domain/Sections.java:85-113 | on a path, the `i`-th section is the one both finders return for its up-station and its down-station |
| Paths.EndsOfPath | src/main/java/wooteco/subway/domain/Sections.java:77-103 | on a path, no section starts at the last station and none ends at the first |
| Paths.OnLineIffOnPath | src/main/java/wooteco/subway/domain/Sections.java:52-60 | a station is an endpoint of some section iff the path passes it; off the path both finders find nothing |
| InsertCases.SplitContents | src/main/java/wooteco/subway/domain/Sections.java:143-148 | a split grows the list by one, swaps the old section for its remainder and the new one, and keeps the total distance |
| InsertCases.InsertRejectsUnknownOrKnown | src/main/java/wooteco/subway/domain/Sections.java:62-68 | on a non-empty line, a section with both stations known, or both unknown, is refused with `InvalidRequest` |
| InsertCases.InsertAtTopCase | src/main/java/wooteco/subway/domain/Sections.java:36-38 | a section ending at the top station from an unknown station is prepended; count +1, total distance + its distance |
| InsertCases.InsertAtBottomCase | src/main/java/wooteco/subway/domain/Sections.java:40-42 | a section from the bottom station to an unknown station lands at index `size - 1`, and every other section stays in place; count +1, total + its distance |
| InsertCases.InsertSplitUpCase | src/main/java/wooteco/subway/domain/Sections.java:120-129 | split at an up-station: `InvalidRequest` iff the new distance is not smaller; otherwise count +1, total distance unchanged, remainder `old.(up := new.down, distance := old - new)` |
| InsertCases.InsertSplitDownCase | src/main/java/wooteco/subway/domain/Sections.java:131-141 | split at a down-station: `InvalidRequest` iff the new distance is not smaller; otherwise count +1, total distance unchanged, remainder `old.(down := new.up, distance := old - new)` |
| InsertCases.InsertKeepsDistancesPositive | src/main/java/wooteco/subway/domain/Sections.java:120-148 | with positive distances before and a positive new distance, every section after a successful insert has positive distance |
| InsertPaths.InsertIntoEmpty | src/main/java/wooteco/subway/domain/Sections.java:29-32 | an empty line takes any section without validation, and it becomes a one-section path |
| InsertPaths.InsertRejectsBothOrNeither | src/main/java/wooteco/subway/domain/Sections.java:51-69 | on a path, a section whose two stations are both on it or both off it is refused, adjacent or not |
| InsertPaths.InsertAtTop | src/main/java/wooteco/subway/domain/Sections.java:91-94 | on a path, prepending before the first station yields the path with the new station first |
| InsertPaths.InsertAtBottom | src/main/java/wooteco/subway/domain/Sections.java:115-118 | on a path, the bottom insert yields the path with the new station last |
| InsertPaths.InsertSplitAtUpStation | src/main/java/wooteco/subway/domain/Sections.java:120-129 | on a path, a split of the `i`-th section is refused iff it is not longer; otherwise the new station sits right after the `i`-th |
| InsertPaths.InsertSplitAtDownStation | src/main/java/wooteco/subway/domain/Sections.java:131-141 | the same for a split at the `(i+1)`-th station, from a new station |
| InsertPaths.InsertKeepsPath | src/main/java/wooteco/subway/domain/Sections.java:29-49 | headline: on a non-empty path, a successful insert yields one simple path through the old stations plus exactly one new station, and it contains both stations of the new section |
| DeletePaths.DeleteNeedsTwoSections | src/main/java/wooteco/subway/domain/Sections.java:196-205 | a line with fewer than two sections refuses every delete with `InvalidRequest` |
| DeletePaths.RemoveFirstSection | src/main/java/wooteco/subway/domain/Sections.java:211 | dropping the first section of a path leaves a path through every station but the first, one section shorter and shorter by that distance |
| DeletePaths.DeleteTopCase | src/main/java/wooteco/subway/domain/Sections.java:189-190 | a top station is deleted by removing the first section starting at it |
| DeletePaths.DeleteTop | src/main/java/wooteco/subway/domain/Sections.java:207-213 | on a path, deleting the first station drops the first section; the rest is a path through the other stations, one section shorter and shorter by that distance |
| DeletePaths.DeleteInteriorCase | src/main/java/wooteco/subway/domain/Sections.java:215-230 | a station with a section on each side is deleted by removing both and appending the merged section |
| DeletePaths.DeleteInterior | src/main/java/wooteco/subway/domain/Sections.java:215-230 | on a path, deleting an interior station merges its two sections into one (distances summed); the stations keep their order without it; count -1, total distance unchanged |
| DeletePaths.DeleteBottomCase | src/main/java/wooteco/subway/domain/Sections.java:207-209 | as written, a station where a section ends but none starts is a bottom station and its delete fails with `EntityNotFound` |
| DeletePaths.DeleteBottomNotFound | src/main/java/wooteco/subway/domain/Sections.java:207-209 | as written, deleting the last station of a path fails with `EntityNotFound` |
| DeletePaths.DeleteAbsentNotFound | src/main/java/wooteco/subway/domain/Sections.java:215-220 | on a path, deleting a station it does not pass fails with `EntityNotFound` |
| DeletePaths.DeleteOutcome | src/main/java/wooteco/subway/domain/Sections.java:186-230 | as written, on a path of two or more sections, a delete succeeds iff the station is on the path and not its last station; any failure is `EntityNotFound` |
| DeletePaths.DeleteKeepsDistancesPositive | src/main/java/wooteco/subway/domain/Sections.java:215-230 | with positive distances before, every section after a successful delete has positive distance (a merged section's distance is the sum of two) |
| DeletePaths.DeleteKeepsPath | src/main/java/wooteco/subway/domain/Sections.java:186-230 | as written, a successful delete leaves one simple path through every former station but the deleted one |
| SortedPaths.WalkFollowsSections | src/main/java/wooteco/subway/domain/Sections.java:158-163 | on any list, each step of the walk between two stations follows some section |
| SortedPaths.MapStepsOfPath | src/main/java/wooteco/subway/domain/Sections.java:168-174 | on a path, the map sends each station but the last to the next one |
| SortedPaths.MapKeysOfPath | src/main/java/wooteco/subway/domain/Sections.java:168-174 | on a path, the keys of the map are exactly the stations but the last |
| SortedPaths.TopOfPath | src/main/java/wooteco/subway/domain/Sections.java:176-184 | on a non-empty path, the first station is the only key that is no value, and the map has one entry per section |
| SortedPaths.SortedStationsOfPath | src/main/java/wooteco/subway/domain/Sections.java:150-166 | headline: on a non-empty path, the top found is the first station, and the sorted list is every station of the path in travel order (`size + 1` of them) |
| CorrectedDelete.BottomDeleteCounterexample | src/main/java/wooteco/subway/domain/Sections.java:207-209 | on A -> B -> C, deleting C fails with `EntityNotFound` as written, and drops B -> C once corrected |
| CorrectedDelete.DeletedIntendedAgrees | src/main/java/wooteco/subway/domain/Sections.java:186-194 | the corrected delete equals the as-written one at every station that is not a bottom station |
| CorrectedDelete.DeleteBottomCaseIntended | src/main/java/wooteco/subway/domain/Sections.java:207-213 | corrected: a bottom station is deleted by removing the first section ending at it |
| CorrectedDelete.DeleteBottomIntended | src/main/java/wooteco/subway/domain/Sections.java:207-213 | corrected: deleting the last station of a path drops its last section |
| DeletePaths.RemoveLastSection | src/main/java/wooteco/subway/domain/Sections.java:211 | dropping the last section of a path leaves a path through every station but the last, one section shorter and shorter by that distance |
| CorrectedDelete.DeletedIntendedOutcome | src/main/java/wooteco/subway/domain/Sections.java:186-230 | corrected: on a path of two or more sections, a delete succeeds iff the station is on the path; any failure is `EntityNotFound` |
| CorrectedDelete.DeletedIntendedKeepsDistancesPositive | src/main/java/wooteco/subway/domain/Sections.java:186-230 | corrected: with positive distances before, every section after a successful delete has positive distance |
| CorrectedDelete.DeletedIntendedKeepsPath | src/main/java/wooteco/subway/domain/Sections.java:186-230 | corrected headline: a successful delete leaves one simple path through every former station but the deleted one |

## Left out

- Distances are unbounded integers. The Java `int` arithmetic in the split (`old - new`) and the merge (sum) could overflow; that is not modelled.
- `Section.equals` and `Station.equals` are not part of this model. Both are taken as structural equality, so `List.remove(Object)` removes the first structurally equal section.
- `findAny` on a sequential stream is modelled as the first match. On a simple path there is at most one match anyway.
- The iteration order of `HashMap.keySet()` in `findTopStation` is unspecified, so the model picks any key that is not a value. On a simple path that key is unique.
- `HashMap.get` returning `null` on a line that is not a path becomes `None` in the walk.
- The exception message texts are left out; only the error kinds remain.
- The empty and varargs constructors and `getSections` are left out; the model keeps only the list constructor and the public field.
- `SectionJdbcDao`, `SectionController` and `StationService` are not part of this model. They cover database access, HTTP binding and a duplicate-name check over a store that is not shown.
- InsertPaths.InsertKeepsPath: requires a non-empty line. An empty line accepts any section without validation, including one that starts and ends at the same station, which is not a simple path. `InsertIntoEmpty` covers the empty case for a section with two different stations.

## Findings

The class and `SectionsSpec.Deleted` keep the code as written. The corrected delete is `CorrectedDelete.DeletedIntended`, and the corrected properties are proved about it.

| source | as written | input that shows it | evidently intended | confidence | as-written member | corrected member |
|---|---|---|---|---|---|---|
| src/main/java/wooteco/subway/domain/Sections.java:207-209 | `deleteStation` sends both the top and the bottom station to `deleteStationWithoutUpdate`, which only looks up a section starting at the station; no section starts at the bottom station, so the delete always throws not-found | line A -> B -> C (sections A -> B and B -> C), delete C | the last section B -> C is removed, leaving A -> B; in general every station of a line of two or more sections can be deleted (`CorrectedDelete.DeletedIntendedOutcome`), the as-written failure holding on every path (`DeletePaths.DeleteBottomNotFound`) | not executed | CorrectedDelete.BottomDeleteCounterexample | CorrectedDelete.DeletedIntendedKeepsPath |
