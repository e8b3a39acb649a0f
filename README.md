# Dataset stager for signature images — a Dafny model

The modelled system stages scanned document images for a classifier that
decides whether a signature is present. Its class `FileHandler`
(`src/file_handler.py`) does the following:

- unpacks archives of raw images into raw pools;
- crops every raw image into a processed pool. Each crop is renamed
  `true-<n>.jpg` or `false-<n>.jpg`, depending on whether its original name
  holds the marker `true` or `false`, with the two classes numbered apart;
- copies a range of processed images into the `true/` and `false/` class
  directories of a dataset directory, and reports the names it could not find;
- counts the files two levels below a set of directories.

The model works on an explicit file tree.

- **Disk**: a path is a sequence of components.
- **Disk**: the tree is a map from paths to entries, each either a regular
  file with its bytes or a directory.
- **Disk**: it is well formed when the parent of every entry is a directory.
- **Disk**: class `FileSystem` holds the tree in a field. Its methods are
  `ListFiles`, `ListSubdirs`, `RemoveTree`, `MakeDir`, `MakeDirs` and
  `WriteFile`. Each changes the field and states the new tree.
- **Paths**: the constant path table, which holds two archive directories and
  four pools.
- **Names**: the two classes.
- **Names**: the case-insensitive marker test.
- **Names**: the `{class}-{n}.jpg` naming scheme, with its parser and the
  round trip between the two.

Each private step of `FileHandler` is a method over a `FileSystem`. It has the
loop the source has, and its contract ties the new tree to a specification
function of the old tree:

- `Provisioning.MakeNotMarkerDir` resets the four pools.
- `Unzip.UnzipData` unpacks the archives (`Unzipped`).
- `Cropping.CropImages` crops and renames (`Saved`).
- `Provisioning.CreateDataDirectory` provisions the dataset directory
  (`Provisioned`).
- `Distribution.DataDistribution` distributes images into the class
  directories (`Distributed`, `Reported`).
- `Accounting.CountingFilesInDirs` counts files (`TotalFiles`).

Lemmas then state what the specification functions mean, entry by entry:

- the numbering of crops is dense per class;
- every image of the range that the pool holds has a copy;
- exactly the missing ones are reported;
- the pool is never touched;
- a distribution is idempotent;
- nothing outside the directories an operation names changes.

The three public operations are `Pipeline.TrainDataPreparation`,
`Pipeline.DataProcessing` and `Pipeline.AddingTestData`. Each runs these steps
in the source's order. Their contracts state the final tree directly.

The model replaces the following with parameters:

- Image decoding, cropping to the box (830, 1465, 1435, 1570) and grey-scale
  conversion become two parameters over bytes: `canOpen` and `crop`.
- The archive format becomes the parameter `unpack`, which maps an archive's
  bytes to its members in stored order.
- The order of a directory listing is whatever `ListFiles` returns. Every
  contract holds for any order.

## Model

| member | source | states |
|---|---|---|
| Names.Label.Marker | src/file_handler.py:25 | each class marker has at least four characters and ends in `e` |
| Names.MarkerLowerCase | src/file_handler.py:25 | each marker consists of lower-case letters only and is unchanged by lower-casing, so the lower-cased name is searched for the marker as written |
| Names.Lower | src/file_handler.py:65 | lower-casing keeps the length of the name |
| Names.ContainsIff | src/file_handler.py:65 | the left-to-right scan finds the marker exactly when it occurs at some position of the name |
| Names.Classify | src/file_handler.py:65-70 | the label of a raw name: `true` when its lower-cased form holds `true`, else `false` when it holds `false`, else none. Its meaning is stated by `ClassifyMeaning` |
| Names.ClassifyMeaning | src/file_handler.py:65-70 | a name is labelled `true` iff its lower-cased form holds `true`, and labelled `false` iff it holds `false` but not `true`. Otherwise it is skipped |
| Names.NatToDecimal | src/file_handler.py:66 | a counter prints as a non-empty string of digits |
| Names.DecimalRoundTrip | src/file_handler.py:66 | reading back the printed digits gives the counter |
| Names.IntToDecimal | src/file_handler.py:103 | an integer prints as a non-empty string that starts with `-` exactly when it is negative |
| Names.IntRoundTrip | src/file_handler.py:103 | parsing a printed integer gives it back |
| Names.FileName | src/file_handler.py:66-69 | the processed name `{class}-{i}.jpg`, also used by the copy at lines 99-103. `FileNameRoundTrip` and `FileNameInjective` state that it determines the class and the index |
| Names.FileNameRoundTrip | src/file_handler.py:66-69 | parsing `{class}-{i}.jpg` gives back the class and the index |
| Names.FileNameInjective | src/file_handler.py:99-103 | two image names are equal iff their classes and indices are equal |
| Disk.DistinctCount | src/file_handler.py:125 | a listing without repetition has as many names as its set |
| Disk.Children | src/file_handler.py:62 | the names listed in a directory are those of its entries |
| Disk.Placed | src/file_handler.py:125 | names placed in a directory are exactly the paths directly inside it with those names |
| Disk.Files | src/file_handler.py:62 | the file names of a directory's first level are those of its regular files |
| Disk.Subdirs | src/file_handler.py:124 | the folder names of a directory's first level are those of its subdirectories |
| Disk.PrunedWellFormed | src/file_handler.py:35 | removing a tree leaves a well-formed tree without anything under the removed path |
| Disk.WithDirsFacts | src/file_handler.py:82 | creating a directory with its parents makes every prefix a directory, keeps every entry, and adds only prefixes of the path |
| Disk.WithDirsPresent | src/file_handler.py:82 | creating directories that all exist changes nothing |
| Disk.FileSystem.ListFiles | src/file_handler.py:62 | returns, without repetition, exactly the names of the regular files directly inside the directory |
| Disk.FileSystem.ListSubdirs | src/file_handler.py:124 | returns, without repetition, exactly the names of the subdirectories of the directory |
| Disk.FileSystem.RemoveTree | src/file_handler.py:35 | the tree loses the directory and everything under it, and nothing else |
| Disk.FileSystem.MakeDir | src/file_handler.py:36 | a single directory is added under an existing parent |
| Disk.FileSystem.MakeDirs | src/file_handler.py:82 | the directory and its missing parents are added |
| Disk.FileSystem.WriteFile | src/file_handler.py:66-69 | the file gets the new content, and nothing else changes |
| Unzip.ExtractedAt | src/file_handler.py:45 | after extraction, the output directory holds its former entries and one file per member name, with the content of the last member of that name |
| Unzip.ExtractedElsewhere | src/file_handler.py:45 | extraction touches nothing but entries directly inside the output directory |
| Unzip.SameArchiveNames | src/file_handler.py:43-45 | the names unpacked depend only on the archive files |
| Unzip.UnzippedAt | src/file_handler.py:43-45 | after unpacking all archives, the output holds its former entries and the files of every archive. Each entry is a regular file or an untouched former entry |
| Unzip.UnzippedElsewhere | src/file_handler.py:43-45 | unpacking touches nothing but entries directly inside the output directory |
| Unzip.UnpackArchive | src/file_handler.py:45 | the members are written into the output directory one after another |
| Unzip.UnzipData | src/file_handler.py:38-45 | the archives are exactly the files directly in the archive directory (none if it is missing). The new tree is all of them unpacked in listing order |
| Unzip.Unzipped | src/file_handler.py:43-45 | the tree after unpacking each archive of the listing in turn into the output directory. `UnzippedAt` and `UnzippedElsewhere` state what it holds |
| Accounting.WithinSubdirs | src/file_handler.py:124-125 | the files counted through the subdirectories of a directory are exactly its files two levels down |
| Accounting.WithinAdd | src/file_handler.py:125 | one more subdirectory adds exactly its own regular files to the count |
| Accounting.NoSubdirsCountNothing | src/file_handler.py:124-125 | a directory without subdirectories counts zero |
| Accounting.CountIgnores | src/file_handler.py:121-125 | entries that are not two levels down never change a directory's count |
| Accounting.TotalFiles | src/file_handler.py:121-126 | the sum, over the arguments, of the regular files two levels below each. `WithinSubdirs` and `TotalAppend` state what it counts |
| Accounting.TotalAppend | src/file_handler.py:123 | the total over several arguments is the sum of the totals of each |
| Accounting.CountingFilesInDirs | src/file_handler.py:115-126 | returns the number of regular files two levels below each argument, summed over the arguments with repetitions, and changes nothing |
| Cropping.Filter | src/file_handler.py:65-70 | the images of one class are listing names that carry that class |
| Cropping.Skipped | src/file_handler.py:65-70 | skipped images are listing names that carry no marker |
| Cropping.Outputs | src/file_handler.py:66-69 | every processed name comes from a raw name of the listing |
| Cropping.EveryNameAccounted | src/file_handler.py:65-70 | every listed image is cropped into exactly one class or skipped |
| Cropping.DenseNumbering | src/file_handler.py:60-70 | the outputs of class `c` are exactly `c-0.jpg` … `c-(k-1).jpg` for the k images of that class, `c-j.jpg` coming from the j-th of them in listing order |
| Cropping.OutputAt | src/file_handler.py:66-69 | `c-k.jpg` is written iff k is below the number of images of class `c` |
| Cropping.OutputOf | src/file_handler.py:66-69 | `c-k.jpg` comes from the k-th image of class `c` |
| Cropping.OutputNames | src/file_handler.py:66-69 | every output name is `c-k.jpg` for some class and index in range |
| Cropping.FilterCount | src/file_handler.py:60-70 | how many images of a class are written does not depend on the listing order |
| Cropping.SavedContents | src/file_handler.py:62-70 | after a pass, the output directory additionally holds each output name with the crop of its raw image, and everything else is as before |
| Cropping.Saved | src/file_handler.py:60-70 | the tree after a cropping pass over a listing. `SavedAt`, `SavedElsewhere`, `SavedRaw` and `DenseNumbering` state what it holds |
| Cropping.RawUntouched | src/file_handler.py:63 | the raw images are not changed by cropping |
| Cropping.SavedAt | src/file_handler.py:62-70 | per output name: present iff present before or written, with the crop of its source image |
| Cropping.SavedElsewhere | src/file_handler.py:62-70 | a pass touches nothing but entries directly inside the output directory |
| Cropping.SavedRaw | src/file_handler.py:63 | the raw directory's entries and their bytes are as before |
| Cropping.CropStep | src/file_handler.py:62-70 | one loop iteration keeps both counters equal to the numbers of images of each class seen so far, and the tree equal to the pass so far |
| Cropping.OpensFirstSaved | src/file_handler.py:62-70 | cropping keeps the raw images, so those that could be opened before still can |
| Cropping.CropImages | src/file_handler.py:56-70 | lists the raw files and, in listing order, writes each image's crop under its class and counter. The result is the complete pass, or the pass up to the first image that cannot be opened, with the index of that image |
| Distribution.MissingIndicesMember | src/file_handler.py:96-103 | an index is reported iff it is in the range and its image is absent from the pool |
| Distribution.MissingIndicesAscending | src/file_handler.py:96 | missing indices are reported in increasing order |
| Distribution.NamesOf | src/file_handler.py:103 | one name per missing index |
| Distribution.NamesOfSpec | src/file_handler.py:103 | the k-th reported name is the image name of the k-th missing index, and a name is reported iff its class and index are |
| Distribution.Reported | src/file_handler.py:94-104 | the not-found names, class by class and index by index. `ReportedAt` and `TwoClasses` state which names and in what order |
| Distribution.TargetOf | src/file_handler.py:98-100 | the copy `{out}/{c}/{c}-{i}.jpg` is made iff i is in range and the pool holds `{c}-{i}.jpg` |
| Distribution.ClassCopiedAt | src/file_handler.py:96-101 | after one class, its directory holds what it held plus the copies, each with the pool's entry |
| Distribution.CopyKeepsLayout | src/file_handler.py:98-101 | copying one image keeps both class directories free of subdirectories and the pool unchanged |
| Distribution.CopyClass | src/file_handler.py:96-104 | the inner loop returns the missing names of its class in index order, and the tree is the class's copies |
| Distribution.PoolNotTarget | src/file_handler.py:98-101 | no copy lands in the pool |
| Distribution.TargetsApart | src/file_handler.py:95-100 | the two classes never copy to the same path |
| Distribution.TwoClasses | src/file_handler.py:95-104 | all `true` images are handled before the `false` ones, and the `true` names are reported first |
| Distribution.DistributedAt | src/file_handler.py:94-104 | per path: present after distribution iff present before or a copy, with the pool's entry for copies |
| Distribution.Distributed | src/file_handler.py:94-104 | the tree after copying every image of the range that the pool holds, class by class. `DistributedAt`, `DistributedNew` and `DistributionResult` state what it holds |
| Distribution.ReportedAt | src/file_handler.py:94-104 | `{c}-{i}.jpg` is reported iff i is in range and the pool lacks it |
| Distribution.EmptyRange | src/file_handler.py:96 | an empty range reports nothing and changes nothing |
| Distribution.DistributionKeepsPool | src/file_handler.py:98-101 | the pool is left exactly as it was |
| Distribution.DistributionIdempotentAt | src/file_handler.py:94-104 | distributing again changes no path |
| Distribution.DistributionIdempotent | src/file_handler.py:94-104 | distributing twice gives the tree of distributing once |
| Distribution.ReportedAgain | src/file_handler.py:102-103 | a second run reports the same names |
| Distribution.MissingAgain | src/file_handler.py:96-103 | a second run finds the same indices missing for each class |
| Distribution.DistributionResult | src/file_handler.py:94-104 | read off the final tree: every image of the range that the pool holds has an identical copy in its class directory, and exactly the absent ones are reported |
| Distribution.DistributedNew | src/file_handler.py:98-101 | a class directory ends up holding its former entries and exactly the copies of its class |
| Distribution.DistributedElsewhere | src/file_handler.py:98-101 | nothing but entries directly inside a class directory changes |
| Distribution.DataDistribution | src/file_handler.py:87-106 | the tree becomes the distribution of the range, `true` before `false`. The not-found list is the missing names in that order, and a warning is raised iff the list is not empty |
| Provisioning.ClearedFacts | src/file_handler.py:80-81 | removing an existing dataset directory deletes everything under it and nothing else |
| Provisioning.RecreatedFacts | src/file_handler.py:82 | the directory is recreated empty with its parents, and nothing else changes apart from the parents |
| Provisioning.ProvisionedWellFormed | src/file_handler.py:79-84 | provisioning yields a well-formed tree in which the directory, its parents and both class directories are directories |
| Provisioning.ProvisionedInside | src/file_handler.py:79-84 | under the dataset directory there are exactly it and its two class directories |
| Provisioning.ProvisionedOutside | src/file_handler.py:79-84 | outside the dataset directory, entries are kept, and only its parents are added |
| Provisioning.ProvisionedShape | src/file_handler.py:79-84 | all of the above in one statement |
| Provisioning.ProvisionedChild | src/file_handler.py:83-84 | the dataset directory holds exactly `true` and `false`, both empty directories |
| Provisioning.ProvisionedListing | src/file_handler.py:79-84 | the listing of the dataset directory is `{true, false}`, and both class directories list nothing |
| Provisioning.ProvisionedAt | src/file_handler.py:79-84 | the same facts per path |
| Provisioning.Provisioned | src/file_handler.py:79-84 | the tree after removing the dataset directory if present and creating it with its two class directories. `ProvisionedShape` and `ProvisionedListing` state what it holds |
| Provisioning.ProvisionIdempotent | src/file_handler.py:79-84 | provisioning twice equals provisioning once |
| Provisioning.ClearStep | src/file_handler.py:80-81 | an existing dataset path is a directory, and after removal it is gone and the tree is well formed |
| Provisioning.ClassDirStep | src/file_handler.py:83-84 | making a class directory under an existing directory adds just that directory |
| Provisioning.RecreatedEmpty | src/file_handler.py:82-84 | after recreation both class directories can be made in turn |
| Provisioning.CreateDataDirectory | src/file_handler.py:72-84 | with `create_dir`, the tree becomes the provisioned one. Without it, nothing changes |
| Provisioning.ResetAt | src/file_handler.py:34-36 | resetting a pool leaves it an empty directory and every path outside it unchanged |
| Provisioning.Reset | src/file_handler.py:34-36 | the tree after removing a pool if present and creating it again. `ResetAt` states what it holds |
| Provisioning.NoFileAbove | src/file_handler.py:34-36 | a pool that is not a file under an existing parent has no file along its path |
| Provisioning.ClearedForReset | src/file_handler.py:34-35 | after removal, the pool is gone and its parent is still a directory |
| Provisioning.ResetReady | src/file_handler.py:32-36 | a pool can still be reset after the pools before it were |
| Provisioning.ResetKeepsDir | src/file_handler.py:32-36 | a later reset keeps an earlier pool a directory |
| Provisioning.ResetKeepsEmpty | src/file_handler.py:32-36 | a later reset puts nothing into an earlier pool |
| Provisioning.ResetKeepsInside | src/file_handler.py:32-36 | every pool reset so far stays an empty directory |
| Provisioning.ResetKeepsOutside | src/file_handler.py:32-36 | paths outside the pools reset so far are unchanged |
| Provisioning.EntryNotReset | src/file_handler.py:14-23 | no entry of one pool is another pool |
| Provisioning.PoolsSeparate | src/file_handler.py:14-23 | no pool of the table lies inside another or inside the parent of a later one |
| Provisioning.PoolsResettable | src/file_handler.py:14-23 | with both pool parents present, every pool can be recreated |
| Provisioning.ResetDirs | src/file_handler.py:32-36 | each pool of the sequence, in order, is removed if present and made anew |
| Provisioning.MakeNotMarkerDir | src/file_handler.py:27-36 | the four pools end up empty directories, and every path outside them is unchanged |
| Pipeline.ZipsOutsidePools | src/file_handler.py:9-24 | archive directories and their entries lie in no pool |
| Pipeline.PoolEntry | src/file_handler.py:14-23 | an entry of one pool lies in no other pool |
| Pipeline.AfterReset | src/file_handler.py:134 | after the reset, the archive directories are as before and all four pools are empty |
| Pipeline.StagedAt | src/file_handler.py:135-142 | after unpacking and cropping, the raw pool holds its former files and the archive files. The processed pool holds its former entries and the crops |
| Pipeline.StagedCrops | src/file_handler.py:139-142 | each processed name holds the crop of its raw image as the raw pool finally holds it |
| Pipeline.StagedElsewhere | src/file_handler.py:135-142 | unpacking and cropping change nothing outside the two pools |
| Pipeline.UnpackedFiles | src/file_handler.py:135-138 | the raw pool's regular files after unpacking are its former files and the archive files |
| Pipeline.TrainRawAfter | src/file_handler.py:133-142 | the raw training pool ends up holding exactly the files of the training archives |
| Pipeline.TrainProcAfter | src/file_handler.py:133-142 | the processed training pool ends up holding exactly the crops of the processed images |
| Pipeline.TrainTestPoolsAfter | src/file_handler.py:133-142 | the test pools end up empty |
| Pipeline.StagedOutside | src/file_handler.py:133-142 | nothing outside the four pools changes |
| Pipeline.TrainDataPreparation | src/file_handler.py:133-142 | the raw training pool holds exactly the archives' files, and the processed training pool holds exactly the crops of the images processed. The run stops at the first image that cannot be opened and returns its index. Every image before it could be opened, and on a complete run every image could be opened. The test pools are empty, and nothing outside the pools changes |
| Pipeline.ChildApart | src/file_handler.py:145-151 | an entry of a pool apart from the dataset directory is neither above nor below it |
| Pipeline.ProvisionedLayout | src/file_handler.py:145 | a freshly provisioned dataset directory has two empty class directories, and the pool is untouched |
| Pipeline.DatasetOutside | src/file_handler.py:145-151 | filling a dataset directory changes nothing outside it, bar creating its parents |
| Pipeline.DatasetKeepsPool | src/file_handler.py:145-151 | filling a dataset directory leaves every pool apart from it unchanged |
| Pipeline.DatasetClassDir | src/file_handler.py:145-151 | a class directory ends up holding exactly the copies of its class (plus its former entries when it was not created afresh) |
| Pipeline.DatasetChildren | src/file_handler.py:145-151 | a fresh dataset directory still holds just `true` and `false` |
| Pipeline.DataProcessing | src/file_handler.py:144-151 | the dataset directory holds just `true` and `false`. Each holds exactly the copies of the training images of its class in the range. Exactly the absent ones are reported, in class-then-index order. The pool and everything outside the dataset directory are unchanged |
| Pipeline.StagedNoSubdirs | src/file_handler.py:164-167 | cropping writes only regular files into the processed pool |
| Pipeline.StagedAlong | src/file_handler.py:160-168 | staging creates no file along a dataset path that is apart from the pools |
| Pipeline.ClassDirApart | src/file_handler.py:168-174 | class directories of a dataset directory that is apart from a pool are not inside the pool |
| Pipeline.StagedClassDirs | src/file_handler.py:160-168 | staging leaves existing class directories as they were |
| Pipeline.TestPoolsAfter | src/file_handler.py:160-167 | the raw test pool keeps its stale files and gains the archives' files. The processed test pool keeps its stale entries and gains the crops |
| Pipeline.HoldsCropsKept | src/file_handler.py:168-174 | the crops stay valid while both pools are untouched |
| Pipeline.TestStagedOutside | src/file_handler.py:160-167 | staging the test images changes nothing outside the test pools |
| Pipeline.DatasetReady | src/file_handler.py:168 | after staging, the dataset directory can be provisioned, or already has its two class directories, so it is ready for distribution |
| Pipeline.StagedDatasetClassDir | src/file_handler.py:168-174 | a class directory ends up holding the copies, plus its former entries when not created afresh |
| Pipeline.StagedDatasetOutside | src/file_handler.py:168-174 | outside the test pools and the dataset directory nothing changes, bar the parents of the dataset directory |
| Pipeline.DatasetDirAlong | src/file_handler.py:168 | the dataset directory is not the working directory, and nothing along it is a regular file, also when it is not recreated |
| Pipeline.OpensFirstKept | src/file_handler.py:168-174 | filling the dataset directory leaves the raw test images as they were, so they still open |
| Pipeline.TestDatasetFilled | src/file_handler.py:168-174 | read off the final tree: exactly the absent test images are reported, every present one has an identical copy, each class directory holds its copies (plus former entries when not recreated), and nothing outside the test pools and the dataset directory changes |
| Pipeline.AddingTestData | src/file_handler.py:153-174 | the test pools keep stale entries and gain the unpacked files and the crops. If an image cannot be opened, the operation stops at the first such image and returns its index. Every image before it could be opened, and nothing outside the test pools changes. Otherwise every image could be opened, and the test images `[0, count_files)` are copied into the class directories, with the same reporting and outside-unchanged guarantees as `DataProcessing` |

## Left out

- Image decoding, the crop box, grey-scale conversion and JPEG encoding are
  replaced by the parameters `canOpen` and `crop`. Only an image that cannot be
  opened is modelled as a failure.
- Archive formats are replaced by the parameter `unpack`. Members with
  directory parts, and archives that fail to unpack, are not modelled.
- `Unzip.UnzipData` requires the archive directory to hold no subdirectory.
  - The source walks subdirectories too, but it joins each archive name to the
    top directory.
  - Nested archive directories are therefore not modelled.
- The directory walk order is not modelled. `ListFiles` and `ListSubdirs`
  return some order without repetition, and every contract holds for all
  orders.
- Logging is not modelled. `DataDistribution` returns the not-found list and
  whether a warning would be logged.
- Timestamps and permissions copied by `shutil.copy2` are not modelled. Only
  contents are.
- `__check_empty_signature`, `_dir_info` and `get_image_size` are not
  modelled. The first two are stubs returning `None`; the last only reads an
  image's size through the imaging library.
- The module-level `handler` instance is not modelled.
- Names.Lower: only ASCII letters are lower-cased. Python's Unicode case
  mapping is not modelled.
- Errors that propagate out of the source are modelled as preconditions.
  - Provisioning.CreateDataDirectory: with `create_dir`, requires that the
    dataset path is not empty and that no component of it is a regular file.
    Without `create_dir` it accepts any path, as the source does.
  - Provisioning.MakeNotMarkerDir: requires that both pool parents exist and
    that no pool is a regular file.
  - Cropping.CropImages: requires that the raw directory exists and that the
    output directory exists with no subdirectory.
  - Accounting.CountingFilesInDirs: requires that every argument is an
    existing directory. The source fails on the first-level walk of a missing
    one.
- Distribution.DataDistribution requires both class directories to exist
  without subdirectories. It also requires the pool to hold no subdirectory
  and to be neither of the class directories.
  - The source accepts subdirectories in the pool whose names are not image
    names, and a pool that is a class directory. Neither case is modelled.
  - With a class directory missing, `shutil.copy2` writes a regular file named
    after the class, or reports every image as not found. Neither is modelled.
  - `AddingTestData` without `create_new_dir` therefore requires both class
    directories to exist.
- Pipeline.DataProcessing requires the dataset directory to be apart from the
  processed training pool (neither inside the other) and the pool to hold no
  subdirectory.
  - When one contains the other, removing the dataset directory would delete
    the pool, or create a folder inside it.
  - Those overlaps are not modelled.
- Pipeline.AddingTestData requires the same separation from both test pools,
  and the raw and processed test pools to exist with no subdirectory.
- Pipeline.TrainDataPreparation returns the archive listing, the image listing
  and the crop outcome, which the source does not expose. It does so to state
  its contract.
- The source resets the pools through a loop nested over the table's two
  groups. The model resets them through one loop over the four pools in the
  same order.
