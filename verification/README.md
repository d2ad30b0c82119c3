# Java teaching snippets, modelled in Dafny

The repository is a collection of small Java `main` programs that each
demonstrate one language or library feature. This project models the
sequential ones that compute something:

- **Duplicates in a list** (`DuplicatesInAList`). It finds repeated and distinct employee names in three ways:
  - a `HashSet.add` filter;
  - `groupingBy(..., counting())`;
  - `Collections.frequency`.
- **Stream puzzles** (`UdemyStreamsExample`):
  - comma-joining with `reduce` plus `substring`, compared with `joining(",")`;
  - the distinct letters produced by `split("")` and `flatMap`;
  - the ordered pairs of distinct words of equal length.
- **`User`**: `equals` and `hashCode` look at the name only; `compareTo` subtracts ids; there is a fluent `Builder`.
- **Group-by** (`GroupByTestsInCollectors`):
  - users grouped by id into a `TreeMap` of `HashSet`s that deduplicate by name;
  - users counted by age.
- **`Student`, `AgeComparator` and the name comparators**, and sorting with them through `Stream.sorted` (`ComparatorExample`, `ComparableExample`, which also sorts a list of integers).
- **Defensive-copy immutability** (`CreateImmutableClassInJava`, exercised by `TestImmutableClass`).

How Java is represented:

- `null` is `Nullable<T>`. A thrown exception is the `Throws` case of `Result<T>`.
- Java `int` is `Int32`. Subtraction wraps to 32 bits through `Wrap32`.
- `String.compareTo` compares character by character and then by length. `String.hashCode` is the wrapped polynomial hash.
- The stream operations are folds over sequences.
- `Arrays.sort`, which `Stream.sorted` uses, is modelled as a stable insertion sort driven by a comparator function value.
- The immutable class is a Dafny class on the heap. Its copies are `fresh` objects.

Modules:

| Module | File | Contents |
|---|---|---|
| `JavaLang` | `java_lang.dfy` | `int` arithmetic, `Integer.compare`, `Objects.equals` and `Objects.hashCode`, `String.compareTo` and `String.hashCode` |
| `JavaUtil` | `java_util.dfy` | `Collections.frequency`, `distinct()`, `groupingBy(..., counting())` |
| `Duplicates` | `duplicates.dfy` | the three duplicate-finding strategies |
| `StreamPuzzles` | `stream_puzzles.dfy` | joining, distinct letters, equal-length pairs |
| `Users` | `users.dfy` | the `User` class and its `Builder` |
| `GroupBy` | `group_by.dfy` | the `TreeMap` of sets and the age counts |
| `Students` | `students.dfy` | the `Student` record |
| `Sorting` | `sorting.dfy` | the stable sort and its laws, for any comparator |
| `Comparators` | `comparators.dfy` | the example comparators, `stream().sorted(c).toList()`, and `sorted()` on integers |
| `Immutable` | `immutable.dfy` | `CreateImmutableClassInJava` |

## Model

| member | source | states |
|---|---|---|
| JavaLang.Wrap32 | src/main/java/org/example/stream/groupby/User.java:38 | an `int` subtraction result is the unique `int` congruent to the exact difference modulo 2^32, and equals it when it fits |
| JavaLang.IntegerCompare | src/main/java/org/learning/comparatorAndComparable/comparator/ComparatorExample.java:46 | `Integer.compare` is negative, zero or positive exactly when a <, = or > b |
| JavaLang.SubtractionSignExact | src/main/java/org/learning/comparatorAndComparable/comparator/ComparatorExample.java:45 | a subtraction comparator has the sign of the true difference exactly when the difference fits in an `int`, and the opposite sign otherwise |
| JavaLang.SubtractionAntisymmetric | src/main/java/org/learning/comparatorAndComparable/comparator/ComparatorExample.java:45 | without overflow, `compare(a,b) == -compare(b,a)` for a subtraction comparator |
| JavaLang.SubtractionNotAntisymmetric | src/main/java/org/learning/comparatorAndComparable/comparator/ComparatorExample.java:45 | with overflow, both `MIN_VALUE - 0` and `0 - MIN_VALUE` are negative |
| JavaLang.SubtractionExactOnNonNegatives | src/main/java/org/learning/comparatorAndComparable/comparator/ComparatorExample.java:45-46 | for non-negative operands, subtraction and `Integer.compare` have the same sign |
| JavaLang.ObjectsEqualsIsEquality | src/main/java/org/example/stream/groupby/User.java:25 | `Objects.equals` on two nullable strings is true exactly when they are both null or equal |
| JavaLang.StringCompareToZeroIffEqual | src/main/java/org/learning/comparatorAndComparable/comparator/ComparatorExample.java:35 | `String.compareTo` returns 0 exactly for equal strings |
| JavaLang.StringCompareToAntisymmetric | src/main/java/org/learning/comparatorAndComparable/comparator/ComparatorExample.java:35 | `a.compareTo(b) == -b.compareTo(a)` |
| JavaLang.StringCompareToTransitive | src/main/java/org/learning/comparatorAndComparable/comparator/ComparatorExample.java:35 | "not greater" under `String.compareTo` is transitive |
| JavaUtil.Frequency | src/main/java/org/example/stream/DuplicatesInAList.java:32-33 | `Collections.frequency` is at most the list size, and positive exactly when the element occurs |
| JavaUtil.FrequencyIsMultiplicity | src/main/java/org/example/stream/DuplicatesInAList.java:32-33 | `Collections.frequency(s, x)` equals the multiplicity of x in s |
| JavaUtil.DistinctSpec | src/main/java/org/learning/streams/questions/UdemyStreamsExample.java:23 | `distinct()` has no repeats, contains exactly the input's elements, and orders them by first occurrence |
| JavaUtil.DistinctAppendSeen | src/main/java/org/learning/streams/questions/UdemyStreamsExample.java:23 | appending elements that already occurred leaves the `distinct()` result unchanged |
| JavaUtil.DistinctAppendFresh | src/main/java/org/learning/streams/questions/UdemyStreamsExample.java:23 | appending new, pairwise different elements appends exactly them, in order, to the `distinct()` result |
| JavaUtil.CountOccurrencesIsFrequency | src/main/java/org/example/stream/DuplicatesInAList.java:24 | the counting map has exactly the occurring keys, each mapped to its frequency, which is at least 1 |
| JavaUtil.GroupingCount | src/main/java/org/example/stream/DuplicatesInAList.java:24-25 | `groupingBy(key, counting())` throws a NullPointerException exactly when a key is null; otherwise it maps each key present, and only those, to its frequency |
| JavaUtil.CountsSumToLength | src/main/java/org/example/stream/groupby/GroupByTestsInCollectors.java:40 | the counts summed over the distinct keys equal the number of elements |
| Duplicates.DuplicatesByHashSet | src/main/java/org/example/stream/DuplicatesInAList.java:14-18 | the `HashSet.add` filter emits each occurrence of a name after its first, in list order, and leaves the set holding every name |
| Duplicates.RepeatedOccurrencesCount | src/main/java/org/example/stream/DuplicatesInAList.java:18 | a name that occurs k > 0 times is emitted k - 1 times |
| Duplicates.RepeatedOccurrencesLength | src/main/java/org/example/stream/DuplicatesInAList.java:18 | the filter emits (number of names) - (number of distinct names) names |
| Duplicates.RepeatedOccurrencesAreRepeatedNames | src/main/java/org/example/stream/DuplicatesInAList.java:18 | the emitted names, as a set, are exactly the names that occur more than once |
| Duplicates.ByGrouping | src/main/java/org/example/stream/DuplicatesInAList.java:24-25 | the grouping strategy throws exactly when some name is null; otherwise its distinct names are the names present, and its duplicates are among them |
| Duplicates.ByFrequency | src/main/java/org/example/stream/DuplicatesInAList.java:31-33 | the frequency strategy's distinct names are the names present, and its duplicates are among them |
| Duplicates.StrategiesAgree | src/main/java/org/example/stream/DuplicatesInAList.java:14-33 | all three strategies report the same duplicate set, and the two set-based ones report the same distinct set, whenever grouping does not throw |
| Duplicates.OnlyNamesMatter | src/main/java/org/example/stream/DuplicatesInAList.java:38-46 | employees' ages never influence any strategy |
| Duplicates.SampleDuplicates | src/main/java/org/example/stream/DuplicatesInAList.java:12-33 | on the list in `main`, "Sid" is the only duplicate, and the distinct names are Sid, Vij and Raj |
| StreamPuzzles.ReduceWithComma | src/main/java/org/learning/streams/questions/UdemyStreamsExample.java:15 | the reduce result has length (sum of name lengths) + (number of names) and ends in ',' when non-empty |
| StreamPuzzles.Substring | src/main/java/org/learning/streams/questions/UdemyStreamsExample.java:16 | `substring` throws unless 0 <= begin <= end <= length, and otherwise returns exactly the characters in between |
| StreamPuzzles.ReduceIsJoiningPlusComma | src/main/java/org/learning/streams/questions/UdemyStreamsExample.java:15-19 | for a non-empty list, the reduce result is `joining(",")` followed by one comma |
| StreamPuzzles.JoinByReduceMatchesJoining | src/main/java/org/learning/streams/questions/UdemyStreamsExample.java:15-19 | reduce-and-strip equals `joining(",")` on a non-empty list, and throws StringIndexOutOfBoundsException on an empty one |
| StreamPuzzles.SplitEmpty | src/main/java/org/learning/streams/questions/UdemyStreamsExample.java:23 | `split("")` yields the one-character strings of a non-empty word, and `[""]` for the empty word |
| StreamPuzzles.LettersLayout | src/main/java/org/learning/streams/questions/UdemyStreamsExample.java:23 | the flattened letters are the words' `split("")` results laid end to end: word k fills the positions from the count of the earlier words' strings, with its characters as one-character strings in order, or a single "" when it is empty |
| StreamPuzzles.LettersSpec | src/main/java/org/learning/streams/questions/UdemyStreamsExample.java:23 | as a set, the flattened letters are the one-character strings of the words' characters, plus "" exactly when some word is empty |
| StreamPuzzles.DistinctLettersSpec | src/main/java/org/learning/streams/questions/UdemyStreamsExample.java:23 | the distinct letters hold every character of the words exactly once, plus "" iff some word is empty, in first-occurrence order |
| StreamPuzzles.PairsWithSpec | src/main/java/org/learning/streams/questions/UdemyStreamsExample.java:30 | for one outer word, the inner filters keep exactly the other words of the same length, paired with it |
| StreamPuzzles.PairsOverSpec | src/main/java/org/learning/streams/questions/UdemyStreamsExample.java:30 | over any list of outer words, [x, w] is collected exactly when x is a word of the list, w is an outer word, and they differ but have the same length |
| StreamPuzzles.EqualLengthPairsSpec | src/main/java/org/learning/streams/questions/UdemyStreamsExample.java:30 | [x, w] is collected exactly when x and w are distinct words of equal length, and then [w, x] is collected too |
| StreamPuzzles.SampleJoin | src/main/java/org/learning/streams/questions/UdemyStreamsExample.java:11-19 | the names in `main` join to "Siddu,Raju,Viju" |
| StreamPuzzles.SampleLetters | src/main/java/org/learning/streams/questions/UdemyStreamsExample.java:11-23 | `flatMap(split(""))` over the names in `main` gives their 13 letters in order |
| StreamPuzzles.SampleDistinctLetters | src/main/java/org/learning/streams/questions/UdemyStreamsExample.java:11-23 | the distinct letters of the names in `main` are S, i, d, u, R, a, j, V |
| StreamPuzzles.SamplePairs | src/main/java/org/learning/streams/questions/UdemyStreamsExample.java:27-30 | the word list of `main` yields exactly the eight pairs of its comment, in that order |
| Users.EqualsByNameOnly | src/main/java/org/example/stream/groupby/User.java:22-26 | `equals` holds exactly for a `User` with the same (possibly null) name; it is false for null and for other classes |
| Users.EqualsIsEquivalence | src/main/java/org/example/stream/groupby/User.java:22-26 | `equals` is reflexive, symmetric and transitive on users |
| Users.HashCodeConsistentWithEquals | src/main/java/org/example/stream/groupby/User.java:19-32 | equal users have equal hash codes |
| Users.CompareTo | src/main/java/org/example/stream/groupby/User.java:36-39 | `compareTo` throws NullPointerException on null and ClassCastException on a non-user, and succeeds otherwise |
| Users.CompareToSignExact | src/main/java/org/example/stream/groupby/User.java:38 | the sign of `compareTo` follows the id order exactly when the id difference fits in an `int` |
| Users.CompareToOverflows | src/main/java/org/example/stream/groupby/User.java:38 | a user with id `MIN_VALUE` compares as `MAX_VALUE` against a user with id 1 |
| Users.CompareToById | src/main/java/org/example/stream/groupby/User.java:36-39 | the intended `compareTo` has the same exceptions, and is negative, zero or positive exactly when the ids are <, = or > |
| Users.CompareToAgreesWhenNoOverflow | src/main/java/org/example/stream/groupby/User.java:38 | without overflow, the written and the intended `compareTo` agree in sign |
| Users.CompareToInconsistentWithEquals | src/main/java/org/example/stream/groupby/User.java:22-38 | for every pair of users: the same name with different ids makes them equal yet compare non-zero, and the same id with different names makes them unequal yet compare zero |
| Users.SettersAreIndependent | src/main/java/org/example/stream/groupby/User.java:47-60 | each builder setter sets its own field and leaves the other two unchanged |
| Users.BuildCarriesLastValues | src/main/java/org/example/stream/groupby/User.java:13-64 | for every chain of setter calls on a new builder, in any order and with repeats, `build()` carries for each field the value of the last call that set it, and 0 or null for a field no call set |
| Users.BuilderChainsOfMain | src/main/java/org/example/stream/groupby/GroupByTestsInCollectors.java:11-34 | the two setter orders `main` chains (id, age, name and id, name, age) build the user with exactly the values given; a repeated `setId` keeps the last id, and a builder with nothing set builds (0, null, null) |
| GroupBy.DedupContains | src/main/java/org/example/stream/groupby/GroupByTestsInCollectors.java:37 | after `toSet()`, `contains(u)` holds exactly when u's name occurs in the list |
| GroupBy.DedupByNameSpec | src/main/java/org/example/stream/groupby/GroupByTestsInCollectors.java:37 | a collected set holds one user per distinct name, taken from the list, namely the first with that name; its size is the number of distinct names |
| GroupBy.PutSpec | src/main/java/org/example/stream/groupby/GroupByTestsInCollectors.java:37 | the `TreeMap` accumulator step keeps keys ascending, adds the user's id as a key, applies `HashSet.add` of the user to that id's group (new if absent), and leaves other groups alone |
| GroupBy.GroupByIdSpec | src/main/java/org/example/stream/groupby/GroupByTestsInCollectors.java:37 | the grouping's keys ascend, are exactly the ids present, and each maps to the deduplicated set of users with that id |
| GroupBy.GroupMembership | src/main/java/org/example/stream/groupby/GroupByTestsInCollectors.java:37 | every user is `contains`-ed by the group of its own id, and every member of the group under k is a user of the list with id k |
| GroupBy.GroupsNoLargerThanList | src/main/java/org/example/stream/groupby/GroupByTestsInCollectors.java:37 | the groups together hold no more users than the list |
| GroupBy.CountByAgeSpec | src/main/java/org/example/stream/groupby/GroupByTestsInCollectors.java:40 | counting by age throws exactly when some age is null; otherwise every age is a key, every count is that age's frequency and at least 1, and the counts sum to the number of users |
| GroupBy.SampleGroupById | src/main/java/org/example/stream/groupby/GroupByTestsInCollectors.java:11-37 | the users of `main` group as 1, 2, 3, 4, 10, with one user each, so both "Alice Johnson" users are kept |
| GroupBy.SampleCountByAge | src/main/java/org/example/stream/groupby/GroupByTestsInCollectors.java:11-40 | the users of `main` count as 25 -> 3, 28 -> 1, 30 -> 1 |
| Students.CompareTo | src/main/java/org/learning/interview/generalJavaQuestions/comparatorAndComparable/utils/Student.java:8-10 | `compareTo` throws on null, and otherwise is negative, zero or positive exactly when the ages are <, = or >, for every `int` age |
| Students.CompareToIsTotalPreorder | src/main/java/org/learning/interview/generalJavaQuestions/comparatorAndComparable/utils/Student.java:9 | `compareTo` is reflexive, antisymmetric in sign, and transitive |
| Students.CompareToIgnoresIdAndName | src/main/java/org/learning/interview/generalJavaQuestions/comparatorAndComparable/utils/Student.java:6-10 | students of equal age compare as 0, even when they are different records |
| Sorting.SortPermutation | src/main/java/org/learning/comparatorAndComparable/comparator/ComparatorExample.java:27 | the sorted list is a permutation of the input, for any comparator |
| Sorting.SortSorted | src/main/java/org/learning/comparatorAndComparable/comparator/ComparatorExample.java:27 | with a comparator that keeps its contract on the input, the sorted list is non-decreasing |
| Sorting.SortStable | src/main/java/org/learning/comparatorAndComparable/comparator/ComparatorExample.java:27 | elements the comparator ranks equal keep their input order |
| Sorting.SortDependsOnlyOnLess | src/main/java/org/learning/comparatorAndComparable/comparator/ComparatorExample.java:35-36 | two comparators that agree on "less than" over the input give the same sorted list |
| Comparators.NameCompare | src/main/java/org/learning/comparatorAndComparable/comparator/ComparatorExample.java:35 | comparing names throws NullPointerException exactly when either name is null; otherwise it returns 0 exactly for equal names |
| Comparators.Compare | src/main/java/org/learning/comparatorAndComparable/comparator/ComparatorExample.java:27-47 | every example comparator throws exactly when one argument has a null key |
| Comparators.SoundIsValid | src/main/java/org/learning/comparatorAndComparable/comparator/ComparatorExample.java:41-49 | each comparator keeps the comparator contract on a set where it is sound: no overflowing age difference and no null key; `reversed()` preserves this |
| Comparators.StreamSortedSpec | src/main/java/org/learning/comparatorAndComparable/comparator/ComparatorExample.java:27-36 | `sorted(c).toList()` throws exactly when the list has two or more students and one has a null key; otherwise it returns a permutation, which is ordered and stable when c is sound |
| Comparators.AgeByIntegerCompareSortsByAge | src/main/java/org/learning/comparatorAndComparable/comparator/ComparatorExample.java:46 | sorting with `Integer.compare` on ages always succeeds, and gives a stable permutation in non-decreasing age order |
| Comparators.NaturalSortIsAgeSort | src/main/java/org/learning/comparatorAndComparable/comparable/ComparableExample.java:32 | `sorted()` on students gives the same list as sorting by `Integer.compare` on ages |
| Comparators.AgeComparatorAgreesWhenNoOverflow | src/main/java/org/learning/comparatorAndComparable/comparator/ComparatorExample.java:44-46 | when no age difference overflows, `AgeComparator` and its `reversed()` sort exactly like their `Integer.compare` versions |
| Comparators.AgeComparatorMisorders | src/main/java/org/learning/comparatorAndComparable/comparator/ComparatorExample.java:45 | `AgeComparator` is not transitive on ages `MIN_VALUE`, 0, `MAX_VALUE`, and leaves [age 1, age `MIN_VALUE`] unsorted |
| Comparators.ReversedAgeSortDescending | src/main/java/org/learning/comparatorAndComparable/comparator/ComparatorExample.java:30-46 | the corrected comparator (`Integer.compare` on ages, line 46) reversed sorts every list into a permutation in non-increasing age order |
| Comparators.ReversedAgeComparatorSortsDescending | src/main/java/org/learning/comparatorAndComparable/comparator/ComparatorExample.java:30-45 | `new AgeComparator().reversed()` as written sorts into a permutation in non-increasing age order whenever no difference of two ages overflows |
| Comparators.ReversedAgeComparatorMisorders | src/main/java/org/learning/comparatorAndComparable/comparator/ComparatorExample.java:30-45 | with an overflowing difference, `new AgeComparator().reversed()` leaves [age `MIN_VALUE`, age 1] in ascending order |
| Comparators.SortIntegersSpec | src/main/java/org/learning/comparatorAndComparable/comparable/ComparableExample.java:13-14 | `sorted()` on a list of integers gives a permutation in non-decreasing order |
| Comparators.SampleIntegers | src/main/java/org/learning/comparatorAndComparable/comparable/ComparableExample.java:13-14 | the integers 12, 3, 4, 53, 57 sort as 3, 4, 12, 53, 57 |
| Comparators.NameSortsAgree | src/main/java/org/learning/comparatorAndComparable/comparator/ComparatorExample.java:35-36 | the lambda and `Comparator.comparing(Student::name)` give the same outcome on every list, null names included |
| Comparators.NameSortOrdersNames | src/main/java/org/learning/comparatorAndComparable/comparator/ComparatorExample.java:35 | with no null name, the name sort is a permutation in non-decreasing `String.compareTo` order |
| Comparators.SampleSorts | src/main/java/org/learning/comparatorAndComparable/comparator/ComparatorExample.java:19-36 | the students of `main` sort by age as Raj, Sid, Viju; reversed as Viju, Sid, Raj; by either name comparator as Raj, Sid, Viju |
| Immutable.Construct | src/main/java/org/learning/interview/generalJavaQuestions/ImmutableClass/classes/CreateImmutableClassInJava.java:17-23 | construction throws NullPointerException exactly when the reference object or the list is null; otherwise it keeps the name and fresh copies of the reference name and the friends |
| Immutable.CreateImmutableClassInJava.constructor | src/main/java/org/learning/interview/generalJavaQuestions/ImmutableClass/classes/CreateImmutableClassInJava.java:17-23 | the constructor keeps the name and stores new objects, which no caller holds, carrying the passed reference name and the passed friends |
| Immutable.CreateImmutableClassInJava.GetReferenceObject | src/main/java/org/learning/interview/generalJavaQuestions/ImmutableClass/classes/CreateImmutableClassInJava.java:30-34 | `getReferenceObject()` returns a new object with the stored reference name, and modifies no existing object |
| Immutable.CreateImmutableClassInJava.GetFriends | src/main/java/org/learning/interview/generalJavaQuestions/ImmutableClass/classes/CreateImmutableClassInJava.java:36-38 | `getFriends()` returns a new list with the stored friends, and modifies no existing object |
| Immutable.TestImmutableClass | src/main/java/org/learning/interview/generalJavaQuestions/ImmutableClass/testClasses/TestImmutableClass.java:10-33 | all three printouts show the values the object was built with, although the caller mutated both the objects passed in and the copies it got back |

## Left out

- `AtomicIntegerUsage` and `VolatileKeyUsage`: they demonstrate thread safety and visibility. Concurrency is outside this model.
- The stream operation catalogues: these are `InitializationOfStreams`, `IntermediateOperations` and `TerminalOperations`. They print examples of library calls and compute nothing the other examples depend on.
- The interface, abstract-class and functional-interface demonstrations: they show dispatch and syntax, and compute no results.
- Logging, `System.out.println`, `toString` and Lombok-generated code are not modelled.
  - `Immutable.Snapshot` stands for what `toString` shows, not for its text format.
  - The order in which `HashSet` and `HashMap` contents are printed is not modelled; those collections are Dafny sets and maps.
- Strings are sequences of Dafny characters (Unicode scalar values), while Java works on UTF-16 code units. `split("")`, `compareTo` and `hashCode` agree with Java on text inside the Basic Multilingual Plane.
- The `Student` type that `ComparatorExample` and `ComparableExample` import from `org.learning.comparatorAndComparable.utils` is not part of this model. The model uses the record `Student(id, name, age)` with the natural order of `Student.java`.
- `ReferenceObject.java` is not part of this model. It is modelled as a bean with one nullable `refName`, a setter and a getter.
- `Arrays.sort` is modelled as a stable insertion sort.
  - For a comparator that keeps its contract, this gives the same list as the library's stable merge sort, since a stable sort's output is determined by the comparator.
  - For a comparator that breaks the contract, the library may throw `IllegalArgumentException` or return another order. This applies to `AgeComparator` on overflowing ages. The model returns the insertion sort's list.
  - Which comparison throws on a null name is not modelled. Only whether the sort throws is.
- The students being sorted are a `seq<Student>`, which holds no null element. In `ComparatorExample` the list is an `ArrayList`, and a null element would make every comparator throw a NullPointerException. The model does not represent null list elements.
- `StreamPuzzles.LettersSpec`: states the letters as a set only. Their order and multiplicity are stated by `StreamPuzzles.LettersLayout`.
- `User` subclasses are not modelled. The argument of `equals` and `compareTo` is either a `User` or an object of another class. Java's `equals` compares `getClass()` and so rejects a subclass instance, while `compareTo`'s cast `(User) o` accepts one.
- `Users.Builder`: the setters return `this` for chaining. The builder is modelled as a value, so aliasing between chained calls is not represented.
- `GroupBy.CountByAgeSpec`: states the sum of counts over the list of distinct ages rather than over the map's values, because Dafny maps have no iteration order. It is the same sum, since each key appears exactly once in that list.
- `StreamPuzzles.EqualLengthPairsSpec`: states membership and symmetry for every list. The order of the pairs is stated only for the list in `main`, by `StreamPuzzles.SamplePairs`.
- `Immutable.Construct`: Java's `final` class and `private` fields cannot be reproduced. The model cannot hide the stored objects: Dafny code can read the `referenceObject` and `friends` fields and mutate what they point to. What the model does state is that the stored objects are `fresh` at construction, so no caller holds them, and that each getter returns a new object.

## Findings

| source | as written | input that shows it | evidently intended | confidence | as-written member | corrected member |
|---|---|---|---|---|---|---|
| src/main/java/org/example/stream/groupby/User.java:38 | `this.id - u.getId()` in 32-bit arithmetic | ids `Integer.MIN_VALUE` and 1: the result is `Integer.MAX_VALUE`, so the smaller id compares greater | `Integer.compare(this.id, u.getId())` | high; not executed | Users.CompareToOverflows | Users.CompareToById |
| src/main/java/org/learning/comparatorAndComparable/comparator/ComparatorExample.java:45 | `o1.age() - o2.age()` in 32-bit arithmetic | ages `MIN_VALUE` < 0 < `MAX_VALUE`: the comparator ranks `MIN_VALUE` above `MAX_VALUE`; the list [age 1, age `MIN_VALUE`] stays in that order | `Integer.compare(o1.age(), o2.age())`, the alternative written on line 46 | high; not executed | Comparators.AgeComparatorMisorders | Comparators.AgeByIntegerCompareSortsByAge |
