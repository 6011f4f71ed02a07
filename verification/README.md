# Proofs about JohnOS

JohnOS is a small 32-bit hobby kernel in C. This project models the parts of it that keep
structured state and proves what they are for:

- **The directory index.** On start the kernel walks the FAT16 directory tree of a USB stick
  breadth first and flattens it into two byte tables: one of 9-byte cells with a section
  `[name, "%", child, ..., "eod"]` for each directory, and one of 10-byte cells with a section
  `[name, file, ..., "eod"]`, beside which two arrays hold clusters and lengths. The shell
  (`cd X`, `cd b`, `cd r`, `ls`, opening a file) looks only at these tables. The model runs the
  same loops over the same tables, and the proofs say that the tables hold exactly the sections
  of the tree level by level, and that each command, by searching bytes, does in the tree what
  it should: child, parent, listing.
- **The same scan on any disk**, damaged or cyclic, over flat memory, where rows without a
  bound run from the tables into the pages behind them: it ends after 910 scans at most.
- **The page allocator** (a bit for each of 60800 pages) and **the heap for small objects** on
  top of it (64 pages with a chain of blocks in each, and a bit for each page that is full).
- **The EHCI queue-head list**: a doubly linked list of heap nodes with a cached middle node.
- **Utilities**: two in-place insertion sorts, bit shifts over a page of 4096 bits, and the
  printers and readers of decimal, hexadecimal and binary numbers.

## How it is organised

| file | what it models |
|---|---|
| `CString.dfy` | `strlength`, `strEql` |
| `DirectoryTree.dfy` | the tree, the 32-byte entries, the rows of both tables |
| `Tables.dfy` | writing cells into byte tables |
| `Fat16.dfy` | the scan: `Fat16.Scanner` has the kernel's tables and counters as fields |
| `AnyDisk.dfy` | the scan on any disk: `AnyDisk.Walk` has its pages as one piece of memory |
| `Places.dfy` | positions in the list of directories, paths, what moving means in the tree |
| `DirectoryTable.dfy` | where the rows of a directory are in the tables |
| `Index.dfy` | what the directory table of a scan reads as |
| `Navigation.dfy` | the shell commands: `Navigation.Shell` has the tables, the current directory and the prompt |
| `Reach.dfy` | the keys, and which files and directories some line of them reaches |
| `Layout.dfy` | how a tree lies on a disk, by absolute sectors and the bytes of the entries |
| `DiskImage.dfy` | a disk for each tree whose names and numbers fit their fields, wherever its areas are |
| `TableLimits.dfy` | trees on which the commands stop short, scanned and walked |
| `QueueLimits.dfy` | a tree on which the scan runs past the end of its queue |
| `Words.dfy`, `PageMap.dfy` | 32-bit words and the page allocator |
| `Heap.dfy` | chains of blocks in a page, and the heap |
| `QueueHeads.dfy` | the queue-head list |
| `Sorting.dfy`, `BitmapShift.dfy`, `Numbers.dfy` | the utilities |

Code that changes state is a class or a method over arrays with the kernel's loops; the ghost
state says what it means (the rows written so far, the blocks of each heap page, the nodes of
the list). Words are natural numbers below 2^32 with `|`, `&`, `~` and `>>` defined on their
binary digits; arithmetic that can wrap is written with `%`.

## Where the code does not do what it is meant to

The model follows the code. These are the places where a property holds under a condition
only; the proofs give the condition, and an input for which it fails:

- `cd b` and `ls` walk over the table byte by byte but stop at 456, which is meant as a number
  of cells. So only about the first 50 cells are in reach: `cd b` works exactly when the `%` of
  the directory's own section starts before byte 456 (`Navigation.Shell.CdBack`), and `ls`
  exactly at the root or when the first child's cell does (`Navigation.Shell.Ls`). On a stick
  with thirteen directories in each other `cd` gets into all of them, and then neither of the
  two does anything (`TableLimits.TooDeep`).
- The pages behind the two tables are free, so the tables hold 910 and 819 rows, but the shell
  looks at fewer. `cd` works in a directory exactly when the end mark of its section is at row
  455 at the most (`Navigation.CanEnter`): of 115 directories in each other it enters 114
  (`TableLimits.TooFar`). A file is found up to row 409 and listed up to row 455
  (`Navigation.AnswerTo`): of eight directories with 58 files each, no file of the last one
  can be opened, and `ls` shows 33 of them (`TableLimits.TooFull`).
- At the root the search for the name after `cd` stops at byte 456 of the list of children
  too, so only the first 52 subdirectories of the root can be entered by name
  (`Navigation.CanEnter`, `TableLimits.TooWide`). Elsewhere there is no such limit.
- The page behind the directory table starts with the name ROOT, which nothing reads, and row 455
  ends in that page. A name there is written over it, but of a mark there only the first byte is
  written: it reads `%ROOT`. So the table of every tree that is stored and fits reads as it is
  meant exactly when no directory has its row at 454 (`Index.ScannedReads`); three times 39
  directories in each other have one there (`TableLimits.MarkRunsOn`).
- The prompt shows the path in every state in which the path is shorter than 125 characters
  (`Navigation.Shell.Valid`). A longer one does not fit, and `cd` then leaves the prompt without
  its end; `cd b` never has to cut such a prompt, because it does not work in any directory
  whose path is that long (`DirectoryTable.BackIsShallow`).
- A line is looked for among the files before anything else, without its extension. Some line finds
  a file exactly when each character of its label is what some key becomes in capitals, no
  file before it in the directory has the same label, and its row is searched
  (`Reach.ReachableFile`). The keys have no `~` and no `_`, so `LONGFI~1` cannot be typed. And
  a text file is marked by a `t` in the ninth byte of its cell: when its name has eight
  letters no zero is left between them, so the label has nine letters, the last of them
  small, and no line in capitals equals it (`Reach.EightLettersUnreachable`,
  `Reach.UnreachableFiles`). So some line opens a file exactly when it is a text file, has fewer
  letters than eight, all of them with keys, and no file before it has that name
  (`Reach.OpenedFile`); behind A.BIN there is no way to A.TXT (`Reach.SecondOfTwo`).
- `cd b`, `cd r` and `cd root` are looked for before a child is. The key for B gives the capital as
  well, but there is none for a capital R: some line leads into a child exactly when its name
  has keys, is not R, and is within the reach of the searches (`Reach.ReachableChild`).
- The rows of a directory are written without a look at the end of the table. For every stored
  tree with D subdirectories and F files, 4*D+3 <= 910 and 2*(D+1)+F <= 819, every row stays in
  its two pages, and the scan is complete after one turn for each directory
  (`Fat16.ScanVolume`). With more, rows come to lie over the queue, which is the page after
  next (`AnyDisk.Walk.RowsThatFit`). As long as no row has reached the cell that a turn reads,
  that cell holds the cluster of the next directory found, or there is none and the scan is
  over (`AnyDisk.Walk.Turn`). Otherwise this can fail: after 256 directories in each other, with
  all of them read and the head of the queue at its end, the name that lies over the next
  cell makes the scan go on (`QueueLimits.ChainGoesOn`). It need not: the rows of a directory
  that holds itself run over the queue too (`AnyDisk.SelfLoop`), but pass by each cell before or
  after it is used, and the scan reads the right cluster every time and ends with the 455th
  directory found (`AnyDisk.SelfLoopEnds`). In any case it ends (`AnyDisk.Walk.ScanAllDirectories`).
- On a heap page that small blocks fill to the last byte, and on no other, `scan_address` walks
  off the end and answers 4096, which its caller takes for a success, and not 4097
  (`Heap.RunsOffExactly`, with freed blocks of the size asked for). With blocks of one size such
  a page is never scanned, because its bit is set (`Heap.UniformServe`). With several sizes it is scanned when a page before it has its
  bit clear: while nothing is freed, a request gets a block of its own exactly when no page it
  passes over is filled like this (`Heap.MixedServe`), and so it is with freed blocks of the size
  asked for, when it comes to a page with one or with room first (`Heap.AnyServe`). After requests of 4000, 2048 and 2048
  bytes every further request of 2048 gets 0x502000 (`Heap.OneAddressTwice`).
- The bit of a heap page keeps requests out of it only with blocks of one size
  (`Heap.NotUsedWhileTaken`). With several sizes a page whose bit is set is used when the search
  comes to it from a page before (`Heap.AddressIsIn`): after 4000, 2048 and 2048 bytes and a free
  of the second address the next request of 2048 gets it again (`Heap.TakenPageUsed`).
- With no page free `kmem_4k_allocate` returns 0x300000, the address of a page that is taken
  (`PageMap.PageMap.Kmem4kAllocate`), and `alloc_free_mem` the address of the page after the last
  (`PageMap.PageMap.AllocFreeMem`).
- `sort_array2` takes 32-bit values and keeps 16 bits of each; it sorts its input exactly when
  every value fits (`Sorting.SortsIffFits`), and 1, 65536 come out as 1, 0
  (`Sorting.CutValueOutOfOrder`). Both sorts take one element when asked for none.
- `shift_bitmap_right` puts into the holder word the bits after the page, not the bits it
  pushes off its end; so the two shifts undo each other exactly when these are the same
  (`BitmapShift.RestoredExactly`), and lose a set bit at the end of a page with zeroes after it
  (`BitmapShift.LastBitLost`).
- `strlength` starts at index 1, so for an empty string it finds the end of what follows, and
  two empty strings compare equal only when that is the same too (`CString.EmptyStringsDiffer`).
  As soon as one of the strings starts with a character and has at most 127 of them, `strEql`
  compares the texts (`CString.StrEql`).

## What is assumed of a disk and its names

A volume stores a tree (`Volume.Stores`) when the fourth entry with a zero first byte is among
the first 64 entries of each directory, entries in use have a name with spaces at its end only,
and subdirectories have a cluster that is not zero. The table theorem needs room for all rows:
with D subdirectories and F files, 4*D+3 <= 910 and 2*(D+1)+F <= 819. The eight pages of the
scan stand one after the other, as a page allocator that is new gives them. The shell needs names
the tables can tell apart: one to eight characters, no directory called `%` or `eod`, all directory
names different (they are compared without their path), files not called like a directory.

That is so for every tree that lies on the disk (`Layout.LaidOutIsStored`): the root directory in
the root area, each other one from sector `data start + sectors per cluster * c` on, where `c` is
the cluster in its entry, and the bytes of the entries as the FAT format has them. And every tree
with names of one to eight characters above the space, at most 60 entries in a directory and numbers
that fit their fields lies on a disk, wherever the areas and the clusters are
(`DiskImage.TreeLies`), and is scanned to its complete index there (`DiskImage.ScanTree`).

## Model

| member | source | states |
|---|---|---|
| CString.StrLength | kernel/string.c:9-14 | the first zero from index 1 on, or 127; for a string of 1 to 127 characters, the length of its text |
| CString.StrEql | kernel/string.c:37-57 | equal exactly when the bytes up to where the lengths end are; so exactly when the texts are, if one string has 1 to 127 characters |
| CString.EmptyStringsDiffer | kernel/string.c:37-57 | two empty strings with different bytes behind their zero do not compare equal |
| DirectoryTree.QueueAdvances | kernel/fs/fat16.c:811-866 | a breadth-first queue serves all of a level before the children of that level, in order |
| DirectoryTree.BreadthFirstIsByLevels | kernel/fs/fat16.c:811-866 | the order in which the queue serves directories is the order level by level, for every tree |
| DirectoryTree.RowCounts | README.md:39-44 | every directory is listed once, has a header, an end mark and a row in its parent's section; the two tables have exactly 4n-1 and 2n+files rows |
| Tables.AppendRow | kernel/fs/fat16.c:488-516 | writing a text over the zeroes after the last cell of a table appends one row and keeps the others |
| Tables.AppendInfo | kernel/fs/fat16.c:488-516 | writing a name or a mark after the last row of the directory table appends a row of it and of what stood behind, and keeps the others |
| Tables.CopyName | kernel/fs/fat16.c:368-391 | the two loops over a padded name field write the name up to its trailing spaces, and zeroes |
| Tables.CopyCell | kernel/fs/fat16.c:493-494 | the eight-byte loop copies one cell and nothing else |
| Fat16.Scanner.constructor | kernel/fs/fat16.c:38-140 | the tables start with the header of ROOT and the queue is empty |
| Fat16.Scanner.RecordDirectory | kernel/fs/fat16.c:353-392 | an entry that is a directory adds its name and cluster at the end of the queue |
| Fat16.Scanner.RecordFile | kernel/fs/fat16.c:395-449 | an entry that is a file adds one row with its name and text mark, and cluster and length of the same entry beside it |
| Fat16.Scanner.ScanEntry | kernel/fs/fat16.c:342-456 | an entry is taken as directory, as file or passed over by its first byte and attributes, and the tables grow accordingly |
| Fat16.ReadOneMore | kernel/fs/fat16.c:339-462 | one more entry keeps what was read equal to the directories and files of the entries so far |
| Fat16.NotPastTheEnd | kernel/fs/fat16.c:648 | when the fourth end mark is among the first 64 entries the branch after four sectors is not reached |
| Fat16.ReadAll | kernel/fs/fat16.c:465 | at the fourth end mark exactly the directory's subdirectories and files have been read |
| Fat16.Scanner.ScanSector | kernel/fs/fat16.c:331-462 | the loop over 16 entries of a sector reads them all or stops at the fourth end mark |
| Fat16.Scanner.ReadDirectory | kernel/fs/fat16.c:325-462 | reading a stored directory appends exactly its files to the file table and its subdirectories to the queue, in disk order |
| Fat16.Scanner.PutChildren | kernel/fs/fat16.c:486-516 | after a directory, the names found in it and the end marks are appended |
| Fat16.Scanner.PutHeader | kernel/fs/fat16.c:576-590 | the header of the next directory of the queue is appended to both tables |
| Fat16.Scanner.QueueEnds | kernel/fs/fat16.c:525-548 | the two searches say there is no next directory exactly when the queue is empty |
| Fat16.Scanner.OpenNext | kernel/fs/fat16.c:525-590 | the header of the next directory is opened exactly when one is queued |
| Fat16.Scanner.CloseDirectory | kernel/fs/fat16.c:465-606 | the section is completed, the next one is opened, and the call returns where the next cluster is kept exactly when the queue has one more directory |
| Fat16.WalkAdvances | kernel/fs/fat16.c:811-866 | serving the head of the queue keeps done + breadth-first(queue) equal to the whole walk, with each queued directory at its stored cluster |
| Fat16.WalkFits | kernel/fs/fat16.c:811-866 | while the tree fits the tables, so do the sections written so far, the next one and the header after it |
| Fat16.Scanner.ScanDirectories | kernel/fs/fat16.c:279-606 | one call appends the section of the directory stored at its cluster, and continues exactly when the queue does |
| Fat16.Scanner.ScanNext | kernel/fs/fat16.c:811-866 | one turn of the outer loop moves one directory from the queue to the index, or ends with the index complete |
| Fat16.Scanner.ScanAllDirectories | kernel/fs/fat16.c:811-870 | for every tree that is stored on the volume and fits, both tables end up as the concatenation of its directories' sections level by level from ROOT |
| Fat16.ScanVolume | kernel/kernel.c:150-171 | from the start variables to the complete index in one turn for each directory, for every volume that stores a tree with 4*D+3 <= 910 and 2*(D+1)+F <= 819 |
| Layout.EntryRead | kernel/fs/fat16.c:342-446 | an entry whose bytes are those of an end mark, a subdirectory, a file, or neither is taken for just that, with the name, cluster, length and text mark that the bytes give |
| Layout.DirectoryRead | kernel/fs/fat16.c:325-465 | of the entries in the sectors from a base on, up to the fourth end mark, the scan reads the subdirectories and the files in disk order and no other entry |
| Layout.LaidOutIsStored | kernel/fs/fat16.c:306-310 | a tree whose root directory is in the root area, and whose other directories are from sector data start + sectors per cluster * c on, c being the cluster in their entry, is stored on the volume; for all three numbers |
| DiskImage.EntryHolds | kernel/fs/fat16.c:342-446 | an entry written for a subdirectory or a file has the bytes of one |
| DiskImage.TreeLies | kernel/fs/fat16.c:306-310 | for every root area, data start, cluster size of four sectors or more, and clusters, that do not overlap, every storable tree lies on a disk |
| DiskImage.ScanDisk | kernel/kernel.c:150-171 | every disk that a tree lies on, by absolute sector numbers, is scanned to the tree's complete index |
| DiskImage.ScanTree | kernel/kernel.c:150-171 | every storable tree that fits the tables is scanned to its complete index, wherever root area, data area and directories are |
| AnyDisk.Walk.ScanSector | kernel/fs/fat16.c:331-462 | on any sector, as many directories are found and file rows written as it has entries of each kind up to the fourth end mark; the clusters found are queued |
| AnyDisk.CountsAre | kernel/fs/fat16.c:331-462 | the entries of each kind are counted once each |
| AnyDisk.Walk.RowsThatFit | kernel/fs/fat16.c:488-516 | no row has reached the page of the queue exactly while there are at most 910 rows of directories and 2048 of files |
| AnyDisk.Walk.Close | kernel/fs/fat16.c:465-775 | after the fourth end mark as after four sectors, the scan goes on with all counters advanced by the section, always when it has found a directory and less than 455 in all, and changes the queue only where the section lies over it |
| AnyDisk.Walk.ScanDirectories | kernel/fs/fat16.c:279-808 | every way out of the scan keeps what is known of queue and names; while no row has reached a cell that was read, it goes on only with the head below the number of directories found |
| AnyDisk.Walk.Turn | kernel/fs/fat16.c:811-870 | while no row has reached a cell that was read, the scan goes on only with the head below the number found, and the cluster read is that of the directory at the head |
| AnyDisk.Walk.ScanAllDirectories | kernel/fs/fat16.c:811-870 | the scan ends on every disk, readable or not, cyclic or not, after 910 scans at most; after 455 at most if no row had reached a cell of the queue when it was read; with zeroes past the directories found if none has reached the queue |
| AnyDisk.SelfLoop | kernel/fs/fat16.c:811-870 | a directory that holds itself: after 256 scans the rows have run over the queue, and its cell 256 is not zero |
| AnyDisk.SelfLoopEnds | kernel/fs/fat16.c:811-870 | on that disk, whatever other clusters hold, the scan ends after 455 turns |
| QueueLimits.ChainGoesOn | kernel/fs/fat16.c:525-548 | a stick with 256 directories in each other: after all of them have been read the scan goes on with the head at the number found |
| Places.LevelsAreListing | kernel/fs/fat16.c:811-866 | the list of all directories is the root followed by everyone's children in turn, and everyone comes after the parent |
| Places.ParentFromIs | kernel/device/kb.c:494-646 | the directory whose turn covers a position is the parent of the directory there |
| Places.ParentIsBefore | kernel/device/kb.c:494-646 | every directory but the root has one parent, earlier in the list, and is the child it takes it for |
| Places.EnterGoesDown | kernel/device/kb.c:820-841 | entering a name goes to a child with that name in capitals and extends the path by it |
| Places.BackGoesUp | kernel/device/kb.c:494-646 | going back goes to the directory that has this one as a child and cuts the path by its name |
| Places.BackUndoesEnter | kernel/device/kb.c:494-646 | entering a child and going back ends at the same directory |
| Places.AscentUndoesDescent | kernel/device/kb.c:494-646 | any descent followed by as many steps back is the identity |
| Places.InCapitals | kernel/device/kb.c:132-137 | in capitals a small letter is the capital at the same place of the alphabet, any other byte is as it was |
| Places.ShownIs | kernel/device/kb.c:829-835 | a name is shown with its first byte, without a capital letter after it, and is the same name in capitals |
| DirectoryTable.InfoRowsAreTexts | README.md:39-44 | each row is written as a name of eight bytes or a mark, in the order of the section texts |
| DirectoryTable.MarkRows | README.md:39-44 | a row is written as the mark exactly when a directory has the row before |
| DirectoryTable.RowReads | kernel/fs/fat16.c:83-87 | a row reads as it is meant, but a mark in row 455 reads %ROOT |
| Index.ScannedReads | kernel/fs/fat16.c:83-87 | for every stored tree that is indexed, all rows read as they are meant exactly when no directory has its row at 454 |
| DirectoryTable.SectionRows | README.md:39-44 | a directory's section has its name, the mark, its children in order and the end mark |
| DirectoryTable.NameOccurs | README.md:39-44 | a directory's name is in the table twice at most: as the child of its parent, and before the mark of its own section |
| DirectoryTable.ChildRowFirst | README.md:39-44 | the row as a child comes before the row of the own section and has no mark after it |
| DirectoryTable.BackIsShallow | kernel/device/kb.c:505-579 | a directory whose own mark starts before byte 456 is one of the first thirteen and has a path shorter than 125 |
| DirectoryTable.FewChildren | README.md:39-44 | a directory of a tree that fits the table has 226 children at most |
| DirectoryTable.FileSectionRows | kernel/fs/fat16.c:395-449 | a file section has the directory's name, its files with cluster and length, and the end mark |
| DirectoryTable.CellText | kernel/string.c:37-57 | a cell read as a string from its first byte gives its text |
| DirectoryTable.FileCellText | kernel/fs/fat16.c:442-446 | a file's cell reads as its name, with the text mark as a ninth letter when the name has eight |
| Navigation.Shell.constructor | kernel/device/kb.c:660-668 | after a scan the shell is at the root with the tables of the scan |
| Navigation.Shell.FindRow | kernel/device/kb.c:688-725 | the search finds the first row from there on with the name of the current directory, or none before row 455 |
| Navigation.Shell.SearchesEnd | kernel/device/kb.c:682-760 | a row with the directory's name is that of its own section, or an earlier one as a child without a mark after it, which exists exactly for directories other than the root |
| Navigation.Shell.CopyChildren | kernel/device/kb.c:753-777 | the children of the current directory and an end mark are copied to a table of their own, if the end mark is at row 455 at the most |
| Navigation.FindTyped | kernel/device/kb.c:904-910 | the search in that table finds the child with the typed name in capitals if there is one, and, at the root, is among the first 52 |
| Navigation.ExtendPrompt | kernel/device/kb.c:820-841 | a prompt that shows a path gets, byte by byte, a slash and the name with its first byte and no capital letter after it, which is the name in capitals, when there is room; any prompt stays within its bytes |
| Navigation.CutPrompt | kernel/device/kb.c:619-640 | a prompt that shows a path loses its last name; any prompt stays within its bytes |
| Navigation.Shell.EnterChild | kernel/device/kb.c:753-841 | from the first child's row on: into the typed child, or no change |
| Navigation.Shell.CdTo | kernel/device/kb.c:682-968 | a name after `cd ` leads to the child of the current directory with it in capitals exactly when there is one, at the root among the first 52, and the end mark of the section is at row 455 at the most; else directory and prompt stay as they were; the prompt shows the path whenever that is shorter than 125, and gets, byte by byte, a slash and the child's name with its first byte and no capital letter after it |
| Navigation.Shell.SkipText | kernel/device/kb.c:507-508 | the byte walk stops at the end of the row's text or at byte 456 |
| Navigation.Shell.SkipZeros | kernel/device/kb.c:510-511 | the byte walk goes on to the next row or stops at byte 456 |
| Navigation.Shell.WalkToCurrent | kernel/device/kb.c:505-512 | the byte walk finds the first row with the directory's name, or byte 456 |
| Navigation.Shell.FindOwnMark | kernel/device/kb.c:505-579 | the walks reach the mark of the directory's own section exactly when it starts before byte 456 |
| Navigation.Shell.ParentSection | kernel/device/kb.c:581-604 | between a directory's row as a child and its parent's mark there is no other mark |
| Navigation.Shell.ToParentRow | kernel/device/kb.c:581-607 | the two walks back end at the row with the parent's name and never at the start of the table |
| Navigation.Shell.CdBack | kernel/device/kb.c:494-646 | `cd b` goes to the parent in the tree exactly when not at the root and the own mark is before byte 456, and the prompt shows its path: the bytes before the last slash, and the end of a prompt; else nothing changes |
| Navigation.Shell.CdRoot | kernel/device/kb.c:647-668 | `cd r` goes to the root, with the bytes `~Root$ ` as prompt |
| Navigation.Shell.Cd | kernel/device/kb.c:494-968 | a line that starts with `cd `: b goes back, r and root go to the root, nothing stays, and any other name is looked for among the children |
| Navigation.Shell.ThereAndBack | kernel/device/kb.c:494-968 | every descent by lines that `cd b` can undo, followed by as many `cd b`, brings back the current directory and the prompt |
| Navigation.Shell.Ls | kernel/device/kb.c:358-490 | `ls` prints the children and the files up to row 455 of the current directory in order, exactly at the root or when the first child's cell starts before byte 456 |
| Navigation.ListedByRow | kernel/device/kb.c:454-486 | a file of the directory is listed exactly when its row is 455 at the most, in order, with its label and text mark |
| Navigation.Shell.HeaderRow | kernel/device/kb.c:125-126 | no row of the file table but its header reads as the name of the current directory |
| Navigation.Shell.FindHeader | kernel/device/kb.c:125-126 | the search ends at the header of the current directory, or at row 455 |
| Navigation.Shell.SearchFiles | kernel/device/kb.c:140-145 | the search finds the first file of the current directory with that label, if there is one and its row is 409 at the most, and nothing else |
| Navigation.Shell.FindFile | kernel/device/kb.c:125-145 | what is typed is found exactly when a file of the current directory up to row 409 has that label in capitals and is the first, and the arrays hold cluster and length of the same entry at that row |
| Navigation.Shell.Open | kernel/device/kb.c:147-160 | a text file is opened with its cluster and length, any other refused, and the table is as it was |
| Navigation.Shell.RunLine | kernel/device/kb.c:106-968 | any line: a file that has it as label is opened or refused; otherwise `ls` lists, `cd ` moves, and nothing else does |
| Reach.ReachableFile | kernel/device/kb.c:24-145 | some line of keys finds the file exactly when every character of its label is what a key becomes in capitals, no file before it has the same label, and its row is 409 at the most |
| Reach.KeysAreTable | kernel/device/kb.c:24-25 | the keys are those of the four rows of the kernel's key table, and no others |
| Reach.OpenedFile | kernel/device/kb.c:24-160 | some line opens the file, with its cluster and length, exactly when it is a text file with fewer than eight letters, all with keys, no file before it has the same label, and its row is 409 at the most |
| Reach.SecondOfTwo | kernel/device/kb.c:140-149 | with A.BIN before A.TXT no line finds A.TXT, and those that spell it are refused |
| Reach.EightLettersUnreachable | kernel/fs/fat16.c:442-446 | no line finds a text file whose name has eight letters |
| Reach.UnreachableFiles | kernel/device/kb.c:24-25 | no line finds READMEEN.TXT, or LONGFI~1 |
| Reach.ReachableChild | kernel/device/kb.c:647-968 | some line of keys leads into the child exactly when every character of its name is what a key becomes in capitals, it is not R, and it is within the reach of the searches |
| Reach.StoredWithoutSpaces | kernel/fs/fat16.c:413-430 | no file of a stored directory has a space in its name, so no line with one is taken for a file |
| DiskImage.TreeIsStored | kernel/fs/fat16.c:325-462 | every tree with storable names, numbers and directory sizes is stored on some volume |
| TableLimits.ChainLimit | kernel/device/kb.c:505-777 | with directories in each other, `cd b` and `ls` work in the first twelve below the root and in no other, and `cd` in the first 113 |
| TableLimits.TooDeep | kernel/device/kb.c:358-646 | on a stick with thirteen of them lines of keys lead into the last, and then `ls` is refused and `cd b` does nothing |
| TableLimits.TooFar | kernel/device/kb.c:682-968 | on a stick with 115 of them lines of keys lead into the 114th, and no line into the last |
| TableLimits.WideLimit | kernel/device/kb.c:904-910 | of up to 60 directories in the root, some line leads into each of the first 52 and none into another |
| TableLimits.TooWide | kernel/device/kb.c:682-968 | on a stick with 53 directories in the root no line leads into the last of them |
| TableLimits.TooFull | kernel/device/kb.c:125-486 | on a stick with eight directories of 58 files no line finds a file of the last one, and `ls` lists 33 of them |
| TableLimits.MarkRunsOn | kernel/fs/fat16.c:83-87 | on a stick with three times 39 directories in each other the scan completes its tables, and the mark in row 455 reads %ROOT |
| Words.BitAfterWrite | kernel/mem.c:368-382 | `\|= 1 << k` sets bit k, `&= ~(1 << k)` clears it, and no other bit changes |
| Words.WriteBitWrites | kernel/mem.c:368-382 | the same for a bit of a word array |
| PageMap.PageMap.SetBit | kernel/mem.c:368-375 | the page is taken, the others are as they were; the bit after the map is no page |
| PageMap.PageMap.ZeroBit | kernel/mem.c:378-382 | the page is free, the others are as they were |
| PageMap.PageMap.CheckBit | kernel/mem.c:385-394 | true exactly when the page is in the set of taken pages |
| PageMap.PageOfAddr | kernel/mem.c:399-411 | the page of a page's address is that page |
| PageMap.PageMap.CheckFirstFreeMemory | kernel/mem.c:414-426 | the lowest free page, or 60800 when none is free, whatever the word after the map holds |
| PageMap.PageMap.CheckFreeMemory | kernel/mem.c:428-440 | the lowest free page from the start on; with none free, page 60799, which is taken; from a start past the map, the page before it |
| PageMap.ExhaustedIffFull | kernel/mem.c:445-461 | the search fails exactly when all 60800 pages are taken |
| PageMap.PageMap.Kmem4kAllocate | kernel/mem.c:445-461 | the lowest free page is taken and its address returned; when all are taken, and only then, the address is that of a page already taken |
| PageMap.PageMap.FreeMemUint | kernel/mem.c:464-470 | exactly the page of the address becomes free |
| PageMap.RunConserves | kernel/mem.c:445-470 | over every run that frees live pages only, live pages + releases = live pages before + grants |
| PageMap.PageMap.RunOps | kernel/mem.c:445-470 | every run of requests and frees of live pages does to the map what it does to the set, grants the lowest free page each time, and loses no page |
| PageMap.AllocatorStaysBelowHeap | kernel/kernel_heap_alloc_nopaging.c:23 | the next page is below 0x500000 exactly while fewer than 512 of the pages below are taken |
| PageMap.LowestPagesAreLowest | kernel/mem.c:353-361 | with enough free pages, b requests in a row get the b lowest free pages in increasing order, and these are what becomes taken |
| PageMap.PageMap.AllocFreeMem | kernel/mem.c:332-338 | the lowest page is taken and its address returned; with none free, no page, and the address of the page after the last |
| PageMap.PageMap.AllocFreeBlocks | kernel/mem.c:353-361 | the block table gets what b requests in a row get, and no other cell changes, whether or not there are b free pages |
| HeapPages.ChainExtend | kernel/kernel_heap_alloc_nopaging.c:105-131 | writing the first untouched cell of a page appends one live block to its chain |
| HeapPages.ChainUpdate | kernel/kernel_heap_alloc_nopaging.c:622-628 | writing the cell of a block changes that block alone |
| Heap.BumpAllocation | kernel/kernel_heap_alloc_nopaging.c:91-144 | on a page where nothing was freed a request gets the first byte after all blocks when it fits, and else fails and changes nothing, whatever the sizes |
| Heap.RunsOffExactly | kernel/kernel_heap_alloc_nopaging.c:91-205 | with freed blocks of the size asked for, the scan answers 4096 exactly on a page that live blocks fill to its last byte, and more than one of them |
| Heap.ScanUniform | kernel/kernel_heap_alloc_nopaging.c:91-205 | with blocks of one size, a request takes the first free slot and no other slot changes |
| Heap.GapMeansNoTiling | kernel/kernel_heap_alloc_nopaging.c:133-144 | a page with a gap at its end means no page can be filled to its last byte by that size |
| Heap.NoSlotMeansGap | kernel/kernel_heap_alloc_nopaging.c:133-144 | a page the allocator comes to either has a slot or makes the scan answer 4097 |
| Heap.Heap.ScanAddress | kernel/kernel_heap_alloc_nopaging.c:73-205 | the walk over the cells ends, reads its page only, and answers and leaves the chain as the search for the first freed block or the space after the last one does |
| Heap.Heap.CheckIfPageTaken | kernel/kernel_heap_alloc_nopaging.c:414-465 | 1 exactly when live blocks cover the page to its last byte |
| Heap.Heap.CheckIfPageFreed | kernel/kernel_heap_alloc_nopaging.c:468-523 | 1 exactly when no block of the page is live |
| Heap.SlotServed | kernel/kernel_heap_alloc_nopaging.c:37-66 | serving a request from a page keeps the layout and its agreement with the bits, and adds one address that was not live |
| Heap.SlotFreed | kernel/kernel_heap_alloc_nopaging.c:526-629 | freeing a live block keeps the layout and its agreement with the bits, and takes away that address alone |
| Heap.LiveBlocksAreSeparate | kernel/kernel_heap_alloc_nopaging.c:37-66 | in every layout live blocks are pairwise disjoint, at multiples of the size in their page, do not cross a page and lie in the 64 pages from 0x500000 |
| Heap.BlocksApart | kernel/kernel_heap_alloc_nopaging.c:37-66 | in every heap, whatever the sizes, two blocks do not overlap and no block crosses its page |
| Heap.LiveIsUnique | kernel/kernel_heap_alloc_nopaging.c:526-629 | a live address is that of one block, so a free takes back one block |
| Heap.FullIffCovered | kernel/kernel_heap_alloc_nopaging.c:414-465 | a page counts as full exactly when each of its 4096 bytes is in a live block |
| Heap.AnyServe | kernel/kernel_heap_alloc_nopaging.c:37-205 | for blocks of any sizes, freed ones of the size asked for among them: a request gets an address that was not live and is live afterwards with that size, with every other live block as it was, exactly when the first page from the lowest clear bit on with a freed block or room comes before any that small blocks fill; it gets the first freed block of that page, or the space after the last one, and the bit is set exactly when live blocks then cover the page; else nothing changes and the address is the end of a page that small blocks fill |
| Heap.AnyRelease | kernel/kernel_heap_alloc_nopaging.c:526-629 | for blocks of any sizes: after a free of a live address that address is not live, every other live block is as it was, the block is there to be taken again unless it was a whole page, and the set of taken pages loses exactly the page of the address when no block starts in it any more |
| Heap.BitStays | kernel/kernel_heap_alloc_nopaging.c:37-629 | over every run of any sizes, a bit that is set stays set as long as a block of its page is live |
| Heap.NotUsedWhileTaken | kernel/kernel_heap_alloc_nopaging.c:37-629 | over every run of one size, once the bit of a page is set no request gets an address in that page until all its blocks are freed |
| Heap.AddressIsIn | kernel/kernel_heap_alloc_nopaging.c:37-205 | with any sizes, whatever the bit of a page, a request gets an address in it exactly when the search from the lowest clear bit comes to it first, or runs off the page before |
| Heap.TakenPageUsed | kernel/kernel_heap_alloc_nopaging.c:37-205 | after 4000, 2048 and 2048 the bit of the second page is set; a free of 0x501000 leaves it set, and the next request of 2048 gets 0x501000 again |
| Heap.UniformServe | kernel/kernel_heap_alloc_nopaging.c:37-66 | with one size a request gets an address that was not live, from the first page with a slot from the lowest clear bit on, and a page whose bit is set is not used |
| Heap.SlotMeansServe | kernel/kernel_heap_alloc_nopaging.c:37-66 | with one size, a request is served whenever a page whose bit is clear has a slot |
| Heap.UniformRelease | kernel/kernel_heap_alloc_nopaging.c:526-629 | with one size a free takes back that address and no other, and keeps layout and bits in agreement |
| Heap.UniformRun | kernel/kernel_heap_alloc_nopaging.c:37-629 | over every run of requests of one size and frees of live addresses the heap keeps its layout, and live + given back = live before + granted |
| Heap.MixedServe | kernel/kernel_heap_alloc_nopaging.c:37-205 | with several sizes and nothing freed, the block is new, recorded and apart from all others exactly when no page passed over is filled by small blocks; else nothing changes and the address is the end of that page |
| Heap.OneAddressTwice | kernel/kernel_heap_alloc_nopaging.c:37-205 | requests of 4000, 2048, 2048, 2048 and 2048 on an empty heap: the last two get the same address, 0x502000, which is in no block |
| Heap.PageRequestKeepsHeap | kernel/mem.c:445-461 | a request for a whole page does not disturb the heap while fewer than 512 pages below it are taken |
| Heap.Heap.constructor | kernel/kernel_heap_alloc_nopaging.c:21-32 | the heap starts with nothing live |
| Heap.Heap.ServeFrom | kernel/kernel_heap_alloc_nopaging.c:52-62 | one page is scanned as the search says, its blocks and its bit change accordingly, and the next page is tried exactly after 4097 |
| Heap.Heap.KmemAllocate | kernel/kernel_heap_alloc_nopaging.c:37-66 | address, tables and bits are those of the first page, from the lowest clear bit on, that the scan does not answer with 4097, for requests of any sizes |
| Heap.Heap.KernelFree | kernel/kernel_heap_alloc_nopaging.c:526-629 | exactly the block of that live address is taken back, whatever its size, and the bit of the page is cleared exactly when no block in it is live |
| Heap.Heap.RunOps | kernel/kernel_heap_alloc_nopaging.c:37-629 | every run of requests of any sizes and frees of live addresses does to tables, bits and addresses what it does to the plain state |
| QueueHeads.QueueHeadList.constructor | kernel/device/usb/usb_ehci_ll.c:14-131 | the list has as many distinct nodes, linked both ways, and the middle node is cached when there are more than 20 |
| QueueHeads.QueueHeadList.Seek | kernel/device/usb/usb_ehci_ll.c:512-542 | from the middle node forward or backward, or from the first node, the walk reaches the node that walking from the first one reaches |
| QueueHeads.QueueHeadList.Settle | kernel/device/usb/usb_ehci_ll.c:969-1000 | afterwards the middle node is at count/2 when there are more than 20 nodes, and the first node is current otherwise, from either side of the threshold |
| QueueHeads.QueueHeadList.AddQh | kernel/device/usb/usb_ehci_ll.c:795-1006 | index 1 puts the new node before all others, index k after node k, with the others in their order; other indices change nothing; the list stays well formed |
| QueueHeads.QueueHeadList.UnlinkQh | kernel/device/usb/usb_ehci_ll.c:494-613 | for an index that is in the list the node number k is gone, the others are in the order they had, and there is one less; for any other index nothing changes; the list stays well formed |
| QueueHeads.UnlinkIs | kernel/device/usb/usb_ehci_ll.c:494-580 | without its node after a, a list a, x, b is a, b; for every a, x and b |
| QueueHeads.AddIs | kernel/device/usb/usb_ehci_ll.c:795-965 | added at the length of a, a list a, b is a, x, b; added at 1, it is x, a, b |
| QueueHeads.UnlinkAllIs | kernel/device/usb/usb_ehci_ll.c:1257-1268 | n removals at the place after a leave a list a, n nodes, b as a, b |
| QueueHeads.QueueHeadList.RunOps | kernel/device/usb/usb_ehci_ll.c:494-1006 | every run of additions and removals that never empties the list does to its nodes what it does to a plain sequence, and keeps the list well formed |
| QueueHeads.UnlinkUndoesAdd | kernel/device/usb/usb_ehci_ll.c:494-1006 | taking out what was added gives the list back |
| QueueHeads.AddAllPlaces | kernel/device/usb/usb_ehci_ll.c:1240-1253 | the nodes added at one index stand together, last one first, and the others keep their order |
| QueueHeads.RemoveUndoesAdd | kernel/device/usb/usb_ehci_ll.c:1240-1268 | the same for any number of nodes, for every list and index |
| QueueHeads.QueueHeadList.AddQhs | kernel/device/usb/usb_ehci_ll.c:1240-1253 | that many new nodes are added at the index, or none when the arguments are out of range |
| QueueHeads.QueueHeadList.RemoveQhs | kernel/device/usb/usb_ehci_ll.c:1257-1268 | that many nodes are taken out at the index; nothing happens when it would take all |
| QueueHeads.QueueHeadList.AddThenRemove | kernel/device/usb/usb_ehci_ll.c:1240-1268 | `add_qhs(q, n)` and then `remove_qhs(q + 1, n)`, or `remove_qhs(1, n)` for q = 1, gives back the same nodes in the same order |
| Sorting.SortedSorts | kernel/util.c:74-130 | the result has the same pairs in nondecreasing order of keys |
| Sorting.EqualKeysReversed | kernel/util.c:74-130 | pairs with equal keys come out in the reverse of their order |
| Sorting.OnlySorted | kernel/util.c:74-130 | there is one sequence with these properties |
| Sorting.EachIsPlaced | kernel/util.c:23-70 | the low half of a value goes behind the last of the low halves before it that is smaller than its full value, with the others in order, whatever the values are |
| Sorting.MakeRoom | kernel/util.c:93-107 | the search backwards stops after the last smaller key and moves the pairs behind it up |
| Sorting.InsertPair | kernel/util.c:87-122 | one round puts the pair after the last smaller key and keeps the others in order |
| Sorting.SortArray3 | kernel/util.c:74-130 | the buffer ends up with the sorted pairs and is untouched after them |
| Sorting.SortArray2 | kernel/util.c:23-70 | the buffer ends up with each value's low 16 bits where its full value was placed |
| Sorting.SameValues | kernel/util.c:23-70 | the result has the low halves of the input, each as often |
| Sorting.SortsIffFits | kernel/util.c:23-70 | the result is the input in nondecreasing order exactly when every value fits 16 bits |
| Sorting.CutValueOutOfOrder | kernel/util.c:23-70 | 1, 65536 comes out as 1, 0 |
| BitmapShift.KeepOverflow | kernel/util.c:153-169 | the holder word has the bits after the page, and bit 31 when there are any |
| BitmapShift.ShiftBitmapRight | kernel/util.c:137-189 | every bit from the position to the end of the page is the one num before, the others are as they were |
| BitmapShift.ShiftBitmapLeft | kernel/util.c:194-242 | every bit from the position to the end of the page is the one num after, the others are as they were |
| BitmapShift.RightThenLeft | kernel/util.c:137-242 | both with the same arguments restore every bit from the position to 4095-num; the last num bits become the bits after the page |
| BitmapShift.RestoredExactly | kernel/util.c:137-242 | both give the whole array back exactly when the bits pushed off equal the bits after the page |
| BitmapShift.LastBitLost | kernel/util.c:137-242 | a page whose last bit is set, with zeroes after it, loses that bit by a shift right and left |
| BitmapShift.InsertBitmap | kernel/util.c:246-295 | a block's bits are written at the position and no other bit changes |
| BitmapShift.BlockTells | kernel/util.c:246-295 | the bits written tell taken from free, short from long, and the size by fours |
| BitmapShift.RoomForABlock | kernel/util.c:137-295 | a right shift, a block inserted, and a left shift: the bits come after the block, and are back afterwards |
| Numbers.PowerOf | kernel/util.c:10-18 | the power in 32 bits |
| Numbers.ValueOfDigits | kernel/graphics/screen.c:369-381 | the digits of a number have its value, in any base |
| Numbers.DigitsOfValue | kernel/graphics/screen.c:369-381 | digits without leading zeroes are the digits of their value |
| Numbers.Printi | kernel/graphics/screen.c:369-381 | the decimal digits are printed in order, ten at most, for every 32-bit value |
| Numbers.ReadMemAddress | kernel/mem.c:26-46 | the value of the digits in 32 bits, for any digits |
| Numbers.PrintedAndRead | kernel/graphics/screen.c:369-381 | the digits printed for a 32-bit value are read back as that value |
| Numbers.StoreHex | kernel/graphics/screen.c:450-456 | the buffer gets the hexadecimal digits, last one first, and zeroes after them |
| Numbers.PrintHex | kernel/graphics/screen.c:441-460 | the digits are printed in order after 0x, zero as eight zeroes |
| Numbers.HexToDec | kernel/graphics/screen.c:494-504 | the value of eight digits, the last one first, in 32 bits |
| Numbers.StoredAndRead | kernel/graphics/screen.c:441-504 | the digits stored for a 32-bit value are converted back to that value |
| Numbers.Padding | kernel/graphics/screen.c:518-525 | as many leading zeroes as the number has |
| Numbers.DecToBin | kernel/graphics/screen.c:510-555 | each of the 32 cells has its binary digit, so read in base 2 they are the value, and the screen shows the cells in groups of four |
| Numbers.BitsAddUp | kernel/graphics/screen.c:510-555 | the binary digits of a 32-bit value, each at its place, have its value |

## Left out

- Navigation.Shell.CdTo: says nothing about what the prompt shows while the path has 125 characters or more, but that it stays within its bytes; the directory is right then too. The write of a zero at kernel/device/kb.c:769 falls on a byte that is zero already, and is left out.
- Navigation.Shell.Open: what is read from a file once it is open is left out.
- Navigation.Shell.RunLine: the commands that have nothing to do with directories and files answer `Other`.
- Navigation.Shell.Ls: what is printed is returned as two lists of strings; line breaks, headings and screen output are left out.
- Fat16.Scanner.ScanAllDirectories: requires that the tree fits the tables. What the code makes of a larger one, or of one with more than 64 entries in a directory, is in AnyDisk: how many scans there are, and when rows reach the queue, not which rows the tables hold in the end.
- Fat16.Scanner.ScanDirectories: the branch after four sectors (kernel/fs/fat16.c:648-775) does not write sections of the same shape and is modelled in AnyDisk only.
- Fat16.Scanner.constructor: requires between 4 and 512 root entries; with more, the scan returns at once. Counters that nothing reads are left out.
- Fat16.Scanner.RecordFile: kernel/fs/fat16.c:440 writes one byte past the five of fat16_temp_char1; the model has no such write.
- AnyDisk.Walk.ScanAllDirectories: the eight pages follow each other, as when the page allocator is new, and the model has the megabyte from the first of them on; rows reach no further. What the rows do to other data of the kernel in it is left out. Somewhere past it there must be a byte that is not zero, at one of the addresses the search for a name comes to, or the search would not end.
- USB transfers: a sector read is a function from sector numbers to 16 entries (and, in AnyDisk, may fail). The release of the buffer after a scan is left out, because there are no buffers.
- PageMap.PageMap.FreeMemUint: that the page is filled with zeroes is not modelled; page contents are not part of this model.
- Heap.Heap.KmemAllocate: requires that the search ends at one of the 64 pages the tables cover. The code would go on to page 100, past the end of its tables.
- Heap.Heap.ScanAddress: requires that freed blocks have the size asked for, and sizes up to 4096. For larger requests, and for a freed block of another size, the cells do not keep enough to rule out overlap; the branches for blocks across pages, and the one that halts on a freed block that is too small, are left out. So runs of several sizes are proved while each request finds freed blocks of its own size only.
- Heap.RunsOffExactly: has the same two requirements, because outside of them the search is not what the code does.
- Heap.Heap.KernelFree: requires an address that is live, and leaves out the branches for blocks across pages.
- QueueHeads.QueueHeadList.UnlinkQh: requires that the only node is not removed; the code would follow a null pointer. The contents of a queue head and its transfer descriptors are left out, and pages for new nodes do not run out.
- BitmapShift.ShiftBitmapRight: requires a position of at least 1 (the loop does not end at 0), and at most 31 bits of overflow, which is what fits beside the flag; indices are below 2^32.
- Numbers: printbyte, printword and print_hex_byte repeat the same loops on smaller words, and are left out.
- Hardware access, the other USB controllers, ACPI, network, interrupts, help texts and colours are left out.
- Loops that the code has twice, for directories and root or for taking a freed block, are written once when they do the same.
