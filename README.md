# Pose thumbnails — a Dafny model

This project models the core of the pose thumbnails add-on for Blender's
pose libraries.

A pose library holds a list of **pose markers**, each with a name and a
frame, and a list of **thumbnail records**. Each record holds a clean pose
name, the pose's position, the pose's frame and the path of the image.
A record belongs to the pose whose frame it carries.

Giving a pose a thumbnail does two things:
- it renames the pose so that the name ends with the thumbnail suffix;
- it creates or updates the pose's record.

Two operators do this:
- **Add thumbnail** binds the active pose to one image file.
- **Add thumbnails from directory** collects image paths and matches them
  to the poses in one of three ways:
  - by **name**, using a fuzzy match between the clean pose name and the
    file's stem;
  - by **index**, either sequentially (pose *i* gets image *i*) or by the
    number each file name starts with;
  - by **frame**, which is a stub that does nothing.

The project is organised as follows.

`wrappers.dfy`
: `Option`.

`pose_names.dfy`
: Cleaning and suffixing pose names. The suffix, a user preference, is a
  parameter.

`sorting.dfy`
: Python's string order, and `sorted` as an insertion sort proved to give
  the unique sorted permutation.

`image_files.dfy`
: Both ways of choosing image files: the module-level scanner and the
  operator's. This file also holds POSIX `basename` and `splitext`, and
  ASCII `lower`.

`numbered_images.dfy`
: Reading the leading number of a file's base name.

`records.dfy`
: Pose markers and thumbnail records, and the frame lookups.
  - `Upsert` is find-or-append by frame.
  - `Bind` is the pure effect of `create_thumbnail`.
  - `ApplyBindings` applies a sequence of bindings in order.

`plans.dfy`
: The pure "plans" of the matching strategies. A plan is the list of
  (pose, image) bindings a strategy makes, plus whether it raises
  IndexError.

`pose_library.dfy`
: The class `PoseLibrary`, whose fields are the marker list and the record
  list. Its methods are the operators' imperative code. Each loop is proved
  to leave the library equal to `ApplyBindings` of the old library and the
  corresponding plan.

Plans depend only on the library as it was before matching. Binding pose
*i* changes only pose *i*'s name and never its frame, which is proved by
`Bind`'s contract. So the later steps of a loop see the same poses the plan
saw.

Notes on the code as written:

- **Cleaning is not idempotent.** `clean_pose_name` removes exactly one
  copy of the suffix. With suffix `_t`, the name `a_t_t` cleans to `a_t`,
  and that cleans to `a`. The model follows the code, although cleaning is
  sometimes described as idempotent.
- **An empty suffix clears the name.** Every name ends with an empty
  suffix, and `name[:-0]` is the empty string. So with an empty suffix,
  `clean_pose_name` returns `""` for every name.
- **The operator's extension test is a substring test.** The directory
  operator keeps a file when its lower-cased extension is non-empty and
  occurs inside the string `".jpg;.jpeg;.png"`. That also accepts `.jp`,
  `.pn`, `.jpg;` and similar extensions, which the module-level scanner
  rejects.
- **`get_images_from_dir` ignores its `sort` flag** and always sorts.
- **Numbered files can repeat a number.** `009-pose.jpg` and
  `00009-pose.jpg` read as the same number.
- **The numbered loop raises IndexError.** It reads the head of the
  numbered list for every pose. When the list runs out while poses remain,
  the loop raises IndexError, and the bindings made before that stay. The
  model returns this as an outcome.

## Model

| member | source | states |
|---|---|---|
| PoseNames.CleanPoseName | pose_thumbnails.py:33-41 | a name that does not end with the suffix is unchanged; one that does, with a non-empty suffix, is the result followed by the suffix; an empty suffix gives the empty name |
| PoseNames.SuffixPoseName | pose_thumbnails.py:44-52 | the result ends with the suffix, equals the name exactly when the name already ended with it, and extends the name by at most the suffix |
| PoseNames.SuffixPoseNameIdempotent | pose_thumbnails.py:44-52 | suffixing twice is suffixing once |
| PoseNames.CleanUndoesSuffix | pose_thumbnails.py:33-52 | with a non-empty suffix, cleaning a freshly suffixed name gives back the original name |
| PoseNames.SuffixIsCleanPlusSuffix | pose_thumbnails.py:33-52 | with a non-empty suffix, the renamed pose is the clean name followed by the suffix |
| PoseNames.CleanWithEmptySuffix | pose_thumbnails.py:38-39 | with an empty suffix every name cleans to "" and suffixing leaves it unchanged |
| PoseNames.CleanNotIdempotent | pose_thumbnails.py:33-41 | cleaning "a_t_t" with suffix "_t" gives "a_t", and cleaning again gives "a" |
| Sorting.AtMostIsLexicographic | pose_thumbnails.py:62 | Python's string order: `a` comes first when it is a prefix of `b` or is smaller at the first position where they differ |
| Sorting.AtMostTotal | pose_thumbnails.py:62 | any two strings are ordered one way or the other |
| Sorting.AtMostAntisymmetric | pose_thumbnails.py:62 | two strings each at most the other are equal |
| Sorting.AtMostTransitive | pose_thumbnails.py:62 | the order is transitive |
| Sorting.SortStrings | pose_thumbnails.py:62 | `sorted`: the result is in string order and is a permutation of the input |
| Sorting.SortedPermutationUnique | pose_thumbnails.py:62 | two sorted permutations of the same strings are equal, so the sorted order is determined |
| ImageFiles.Basename | pose_thumbnails.py:438 | the base name is everything after the last '/': a tail of the path with no '/', as long as the part of the path after its last '/' (the whole path when there is none) |
| ImageFiles.Splitext | pose_thumbnails.py:60 | root and extension concatenate to the path; a non-empty extension is a dot followed by no further dot and no '/', and starts after the last '/' with a non-dot before it in the last component; the extension is empty only when every dot of the last component has only dots before it |
| ImageFiles.Lower | pose_thumbnails.py:60 | `str.lower`: same length, each ASCII capital replaced by its small letter, every other character kept |
| ImageFiles.IsImageFile | pose_thumbnails.py:58-60 | an accepted file's extension is a dot followed by three or four characters |
| ImageFiles.IsSubstring | pose_thumbnails.py:406 | Python's `in` on strings: a substring is never longer than the string it sits in |
| ImageFiles.IsSubstringIffOccurs | pose_thumbnails.py:406 | the substring test holds exactly when the string occurs at some position of the other |
| ImageFiles.OperatorAccepts | pose_thumbnails.py:405-406 | an accepted file has a non-empty extension starting with a dot, no longer than the operator's extension string |
| ImageFiles.GetImagesFromDir | pose_thumbnails.py:55-62 | sorted; each image-extension entry of the listing occurs as often as in the listing, and no other entry occurs |
| ImageFiles.FilterSortCommute | pose_thumbnails.py:404-406 | filtering a sorted list equals sorting the filtered list |
| ImageFiles.OperatorCandidates | pose_thumbnails.py:399-403 | no selection gives nothing; a selection whose first name is blank gives the directory listing; any other selection is used as is |
| ImageFiles.OperatorSelection | pose_thumbnails.py:404-406 | sorted; each accepted candidate occurs as often as among the candidates, and no other name occurs |
| ImageFiles.OperatorImageFiles | pose_thumbnails.py:396-411 | one path per selected name, in order: the name joined to the directory, made relative when asked |
| ImageFiles.ImageFilesPassOperatorTest | pose_thumbnails.py:58-60 | every file the scanner keeps also passes the operator's extension test |
| ImageFiles.OperatorAcceptsTruncatedExtension | pose_thumbnails.py:405-406 | the operator accepts "pose.jp", which the scanner rejects |
| Numbering.LeadingDigits | pose_thumbnails.py:439 | the longest all-digit prefix of the string |
| Numbering.DecimalValue | pose_thumbnails.py:441 | `int` of a digit string: the value of n digits is below 10 to the power n |
| Numbering.ParseLeadingNumber | pose_thumbnails.py:438-441 | there is no number exactly when the base name is empty or does not start with a digit |
| Numbering.LeadingZeroSameNumber | pose_thumbnails.py:433-434 | for a bare file name (no '/') that starts with a digit, putting a '0' in front does not change the number read |
| Numbering.NumberedImages | pose_thumbnails.py:427-444 | every kept entry's number is the one its file name starts with |
| Numbering.NumberedImagesKeepOrder | pose_thumbnails.py:437-444 | the kept files are exactly the files that start with a number, in their original order |
| Records.FirstIndexOf | pose_thumbnails.py:77-79 | the first position holding the frame, or None exactly when the frame is absent |
| Records.GetThumbnailFromPose | pose_thumbnails.py:65-79 | no pose gives nothing; otherwise the position of the first record with the pose's frame |
| Records.GetPoseFromThumbnail | pose_thumbnails.py:82-96 | no record gives nothing; otherwise the first pose with the record's frame, or nothing if none has it |
| Records.GetThumbnailIndex | pose_thumbnails.py:105-110 | the position of the first pose with the record's frame, or nothing |
| Records.ThumbnailsInPoseOrderComplete | pose_thumbnails.py:145-161 | when every pose has a record: one record per pose, in pose order, each the first record carrying that pose's frame |
| Records.ThumbnailsInPoseOrderSkipsUnrecorded | pose_thumbnails.py:145-161 | for any library: one record per pose that has a record, in pose order, each the first record carrying that pose's frame; poses without a record are skipped |
| Records.PosesWithRecords | pose_thumbnails.py:159-161 | the poses kept are exactly those whose frame some record carries |
| Records.PosesWithRecordsSnoc | pose_thumbnails.py:159-161 | a pose added at the end is kept, after the others, exactly when some record carries its frame |
| Records.PosesWithRecordsAppend | pose_thumbnails.py:155-161 | keeping the poses with records distributes over concatenation, so the kept poses stay in pose order |
| Records.SortThumbnails | pose_thumbnails.py:145-161 | the loop yields exactly the records in pose order |
| Records.Upsert | pose_thumbnails.py:420-425 | find-or-append by frame: the length grows only when the frame was absent, other records are untouched, and the first record with the frame is the new one |
| Records.UpsertKeepsUniqueFrames | pose_thumbnails.py:420-421 | find-or-append never creates a second record for a frame |
| Records.Bind | pose_thumbnails.py:413-425 | unless overwriting is off and the pose has a record, the pose gets the suffixed name and its record holds the clean name, index, frame and image; the records grow by one exactly when the pose had no record, and every record other than the first one with the pose's frame is unchanged; frames and other poses are unchanged |
| Records.BindKeepsUniqueFrames | pose_thumbnails.py:413-425 | binding keeps the records' frames distinct |
| Records.SecondBindWithoutOverwriteIsNoOp | pose_thumbnails.py:415-416 | without overwriting, binding an already bound pose changes nothing |
| Records.ApplyBindings | pose_thumbnails.py:452-479 | applying bindings in order keeps the markers' frames and every unbound pose, and adds at most one record per binding |
| Records.ApplyBindingsKeepsUniqueFrames | pose_thumbnails.py:413-425 | applying bindings keeps the records' frames distinct |
| Records.NoOverwriteKeepsRecords | pose_thumbnails.py:415-416 | with overwriting off, existing records stay as they were and only new ones are appended |
| Records.ApplyBindingsStoresEach | pose_thumbnails.py:413-425 | with overwriting on and distinct pose frames, every bound pose ends up suffixed, with its record holding the clean name, position, frame and image |
| Plans.SequentialPlan | pose_thumbnails.py:478-479 | `zip`: pose k is bound to image k for k below the shorter length |
| Plans.SequentialModeEffect | pose_thumbnails.py:477-479 | when the poses' frames are pairwise distinct and overwriting is on, sequential mode stores each of the first min(poses, images) bindings and leaves the later poses alone |
| Plans.NumericWalk | pose_thumbnails.py:473-476 | bindings below the pose count, in strictly increasing pose order, at most one per numbered file |
| Plans.NumericWalkStops | pose_thumbnails.py:473-476 | the walk binds every file it can: when it stops short of the last file, the next file's number names no pose after the last bound one |
| Plans.NumericWalkPairs | pose_thumbnails.py:473-476 | the k-th binding uses the k-th numbered file, at the pose whose position plus the start number is that file's number |
| Plans.NumericWalkIndexError | pose_thumbnails.py:473-476 | IndexError is raised exactly when every numbered file is used up while a pose is still left |
| Plans.NumericPlan | pose_thumbnails.py:469-476 | no numbered files gives no bindings and no error; otherwise the k-th binding is the k-th numbered file at the pose its number names, the first file left unbound names no pose after the last bound one, and IndexError is raised exactly when all files are used before the last pose |
| Plans.NumericPlanUnique | pose_thumbnails.py:469-476 | any binding list that pairs the numbered files in order with the poses they name, and binds every file it can, is the plan's own |
| Plans.NumericPlanExample | pose_thumbnails.py:469-476 | three poses, start 1, files "002-a.png" and "003-b.png": pose 1 gets the first, pose 2 the second, no error |
| Plans.NumericPlanIndexErrorExample | pose_thumbnails.py:473-476 | three poses, start 1, one file numbered 1: pose 0 gets it, then IndexError |
| Plans.Stem | pose_thumbnails.py:451 | the stem has no '/' and, followed by the base name's extension, gives back the base name |
| Plans.KeyMap | pose_thumbnails.py:451 | every file's stem is a key, and each key maps to a file with that stem |
| Plans.KeyMapLastWins | pose_thumbnails.py:451 | a stem maps to the last file with that stem |
| Plans.KeyOrder | pose_thumbnails.py:451 | the dictionary's keys without repeats: exactly the keys of the stem map |
| Plans.KeyOrderExtendsPrefix | pose_thumbnails.py:451 | keys keep their insertion order: the keys of any prefix of the files come first, in the same order |
| Plans.MatchesFor | pose_thumbnails.py:453-458 | when the search only returns candidates, every match for a pose is one of the keys |
| Plans.NamePlan | pose_thumbnails.py:452-461 | bindings below the pose count, in strictly increasing pose order |
| Plans.NamePlanBindsMatches | pose_thumbnails.py:452-461 | a pose is bound exactly when the search for its clean name finds a match, and then to the file under the best match |
| Plans.IndexPlan | pose_thumbnails.py:463-479 | bindings in pose order below the pose count; sequential mode never raises |
| Plans.MatchPlan | pose_thumbnails.py:484-492 | the frame method binds nothing; only numbered index mode can raise |
| Operators.PoseLibrary.CreateThumbnail | pose_thumbnails.py:413-425 | the new library is `Bind` of the old one |
| Operators.PoseLibrary.AddPoseThumbnail | pose_thumbnails.py:313-330 | the new library is the old one with the active pose bound, overwriting, to the file (made relative when asked) |
| Operators.PoseLibrary.MatchThumbnailsByIndex | pose_thumbnails.py:463-479 | the new library applies the index plan to the old one; the IndexError outcome is the plan's |
| Operators.PoseLibrary.MatchByNumber | pose_thumbnails.py:469-476 | the new library applies the numbered plan; the IndexError outcome is the plan's |
| Operators.PoseLibrary.MatchInOrder | pose_thumbnails.py:477-479 | the new library applies the sequential plan |
| Operators.PoseLibrary.MatchThumbnailsByName | pose_thumbnails.py:446-461 | the new library applies the name plan over the stems of the image files |
| Operators.PoseLibrary.MatchNames | pose_thumbnails.py:452-461 | the loop over the poses leaves the library equal to the name plan applied to the old one |
| Operators.PoseLibrary.MatchThumbnails | pose_thumbnails.py:481-492 | the new library applies the chosen method's plan, so the frame method changes nothing; the outcome is IndexError only when the plan raises it, and Finished otherwise |
| Operators.PoseLibrary.AddThumbnailsFromDir | pose_thumbnails.py:494-497 | the operator's image paths are matched to the poses as above |

## Left out

- Blender itself is not part of this model: the UI, panels, enum previews, preview collections and image loading (`get_enum_items`, `get_no_thumbnail_*`, `add_no_thumbnail_to_pose`), registration, and the preferences lookup. The suffix preference is a parameter.
- `get_pose_index` is left out because it relies on Blender's name lookup (`find`). It is only used by `add_no_thumbnail_to_pose`, which is also left out.
- The filesystem and path helpers are left out: the directory listing is a parameter, and `os.path.join` and `bpy.path.relpath` are function parameters with no properties assumed.
- `difflib.get_close_matches` is a function parameter. It is only required to return candidates, and its similarity scoring is not modelled. The cutoff is passed to it as `1.0 - cutoff`, as in the code.
- The cutoff is a float in the code and a `real` here. Floating-point rounding does not matter, because the only use of the cutoff is to hand `1.0 - cutoff` to the search, and nothing is assumed about the search.
- Paths follow POSIX rules only. Windows separators and drive letters are not modelled.
- `lower()` covers only ASCII letters.
- `Operators.PoseLibrary.AddPoseThumbnail` requires an active pose. The code raises an error when there is none, and that error path is not modelled.
- Records are identified by position, not by reference. Blender's property collections and their identity are not modelled, and neither is Blender uniquifying marker names on rename.
- The image list in the directory operator is a lazy generator. Each strategy consumes it once, so it is modelled as a list.
- `PoseLibrary.MatchThumbnailsByIndex` only raises IndexError in numbered mode. The model reports this as an outcome instead of aborting the operator. Bindings made before the error are kept, as in the code.
