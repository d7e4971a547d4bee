# mcsrc core, modelled in Dafny

mcsrc is a browser application for reading the decompiled source of a Minecraft release jar. It lets
the user open any class of the jar as decompiled Java, jump between classes and members through the
tokens the decompiler reports, find the usages of a class, field or method in a usage index built over
the whole jar, view a class's place in the inheritance graph, and diff two releases class by class.

This project models the logic at the centre of that application and proves properties of it:

- the class-file header reader: magic number, constant pool, this/super class and interfaces
  (`Classfile`);
- the two decompilation caches: the version- and open-tab-aware evicting cache (`DecompilationCache`),
  and the simpler move-to-end cache inside the decompile pipeline (`Decompiler`);
- the decompile pipeline's post-processing (`Decompiler`):
  - cache keys;
  - token collection and import-token synthesis;
  - the not-found and error results;
  - the busy counter;
  - the selection of nested classes for the bytecode view;
- the diff engine (`Diff`): CRC32 values XOR-combined per outer class, then classified as added,
  deleted or modified;
- the inheritance index (`Inheritance`): interned nodes, deduplicated parent and child lists, the walk
  to a root, and the build pass over every class header;
- the usage index:
  - the Java indexer's usage table and class data (`JavaIndexer`);
  - the worker's batching of usages into one map of sets (`UsageIndexWorker`);
  - the per-version store (`UsageIndexDb`);
  - the usage-map helpers (`UsageMaps`);
- the two task-queue drains that spread a jar over a pool of workers, with their completion counters and
  progress sequences (`TaskQueue`, `DecompileJar`, `UsageIndexJar`);
- the busy guards around indexing runs (`UsageIndexRun`, `IndexerRun`);
- the tab state machine: open, close, reorder, with a capped history (`Tabs`);
- the editor extensions:
  - offsets, definitions and go-to links, token jumps, import and bracket folding (`CodeExtensions`);
  - the context-menu text formats (`CodeContextActions`);
  - Javadoc lookup, view zones and code lenses (`JavadocExtensions`);
- class search (`Search`), the jar's file and class lists (`JarFile`), the class-file tree
  (`FileList`), the initial file and URL state (`State`), and boolean settings (`Settings`).

Shared modules hold the value types and helpers the models use:

- `Wrappers`: `Option`, `Result`, `Filter`;
- `Strings`: JavaScript string operations on `seq<char>`;
- `Sorting`: a stable insertion sort, standing for `Array.prototype.sort`;
- `InsertionOrder`: JavaScript `Map` insertion order;
- `JsInt32`: the 32-bit view of numbers that JavaScript's `^` takes;
- `Archive`: a jar as paths to bytes;
- `Tokens`: the decompiler's token records.

Each operation that updates state in place is a method of a class whose fields are that state. Each
operation that loops is a method with its loop and invariants. Each is proved against a specification
function, with lemmas stating the properties the source promises about that function.

## Model

| member | source | states |
|---|---|---|
| Classfile.IsInterface | src/utils/Classfile.ts:10-12 | true exactly when bit 0x0200 (ACC_INTERFACE) of the access flags is set |
| Classfile.IsAbstract | src/utils/Classfile.ts:14-16 | true exactly when bit 0x0400 (ACC_ABSTRACT) of the access flags is set |
| Classfile.ClassName | src/utils/Classfile.ts:161-171 | resolves only a CONSTANT_Class slot whose name index is a CONSTANT_Utf8 slot, to that Utf8's bytes; otherwise fails with the invalid-class or invalid-UTF8 reference error, whichever check fails first |
| Classfile.ReadConstantPool | src/utils/Classfile.ts:54-159 | the cursor loop over the pool, starting at offset 10 with the slot-0 placeholder, gives exactly the result of the pool specification |
| Classfile.ReadInterfaces | src/utils/Classfile.ts:187-197 | the interfaces loop gives exactly the result of the interfaces specification, errors included |
| Classfile.ParseClassfile | src/utils/Classfile.ts:38-200 | the whole cursor-based parse gives exactly the result of the parse specification, errors included |
| Classfile.MagicChecked | src/utils/Classfile.ts:42-46 | a successful parse starts with the big-endian word 0xCAFEBABE; any other first word fails with the magic-number error |
| Classfile.EntrySize | src/utils/Classfile.ts:56-157 | each entry consumes its tag byte plus that tag's fixed payload (Utf8: a u16 length plus that many bytes); a tag without a payload size is the unknown-tag error naming the tag |
| Classfile.KnownTags | src/utils/Classfile.ts:59-157 | exactly the tags 1, 3-12 and 15-20 are known |
| Classfile.EntryShape | src/utils/Classfile.ts:77-88 | a parsed entry is one non-wide slot, or a Long or Double followed by a placeholder slot |
| Classfile.PoolShape | src/utils/Classfile.ts:54-159 | the pool keeps slot 0 as the placeholder, extends the slots read so far, has at least `count` slots (at most one more), and every Long or Double is followed by its placeholder |
| Classfile.InterfacesResolved | src/utils/Classfile.ts:187-197 | the interface list has exactly `interfaces_count` names, the j-th being the class reference at offset + 2j resolved |
| Classfile.AfterPoolFields | src/utils/Classfile.ts:173-197 | the access flags are the u16 after the pool; this_class is resolved to the name; super_class 0 means no superclass, any other index is resolved; the interface count is the following u16 |
| Classfile.Parse | src/utils/Classfile.ts:38-200 | what `parseClassfile` returns or throws: the magic check, the pool, then the fields after it; `Classfile.ParseClassfile` is proved equal to it and `Classfile.MagicChecked` states its magic-number case |
| Classfile.ParsePool | src/utils/Classfile.ts:54-159 | the constant-pool loop from one slot on, as a recursion over the slots; `Classfile.PoolShape` states the pool it builds and `Classfile.ReadConstantPool` is proved equal to it |
| Classfile.ParseEntry | src/utils/Classfile.ts:56-157 | one turn of the pool loop: the entries pushed (two for Long and Double) and the new offset; `Classfile.EntrySize`, `Classfile.KnownTags` and `Classfile.EntryShape` state its cases |
| Classfile.ParseInterfaces | src/utils/Classfile.ts:187-197 | the interface loop: each u16 index read and resolved to a class name, or the first error; `Classfile.InterfacesResolved` states its result |
| Classfile.ParseAfterPool | src/utils/Classfile.ts:173-197 | flags, this_class, super_class and the interfaces after the pool; `Classfile.AfterPoolFields` states what it reads |
| DecompilationCache.Key | src/logic/DecompilationCache.ts:8 | the key is the version, a ':' and the class name: its length is their sum and the ':' sits right after the version |
| DecompilationCache.KeyVersion | src/logic/DecompilationCache.ts:31 | the key's version never holds ':'; a key without ':' has the empty version (`substring(0, -1)`); otherwise it is the key's prefix before its first ':' |
| DecompilationCache.KeyVersionOfKey | src/logic/DecompilationCache.ts:31 | the version read back from a key is the version it was built from, whenever that version holds no ':' |
| DecompilationCache.FirstStale | src/logic/DecompilationCache.ts:34-42 | the first position holding a key that is closed and of another version than the selected one, or none when no key is such |
| DecompilationCache.FirstClosed | src/logic/DecompilationCache.ts:34-35 | the first position holding a key that is not open, or none when all are open |
| DecompilationCache.VictimIndex | src/logic/DecompilationCache.ts:45-48 | the victim is a position of the key order |
| DecompilationCache.VictimPrecedence | src/logic/DecompilationCache.ts:16-48 | the victim is the first closed key of another version if any; else the first closed key if any; else the oldest key |
| DecompilationCache.Evicted | src/logic/DecompilationCache.ts:21-52 | eviction leaves fewer than 75 keys, or the order unchanged when it already had fewer; it only removes keys, and keeps distinct keys distinct |
| DecompilationCache.EvictionRound | src/logic/DecompilationCache.ts:45-50 | one round removes exactly the victim and keeps every other key |
| DecompilationCache.EvictedBelowLimit | src/logic/DecompilationCache.ts:22 | whatever the starting order, eviction ends below 75 keys |
| DecompilationCache.ScanForVictim | src/logic/DecompilationCache.ts:27-48 | the scan over the keys finds the victim that the precedence defines (none for an empty cache), and stops right after the first closed key of another version |
| DecompilationCache.Cache.constructor | src/logic/DecompilationCache.ts:5 | the cache starts empty |
| DecompilationCache.Cache.Get | src/logic/DecompilationCache.ts:7-9 | finds a result exactly when the `version:className` key is present, and returns that key's result |
| DecompilationCache.Cache.LimitCacheSize | src/logic/DecompilationCache.ts:21-52 | the new key order is the evicted order, below 75 keys; surviving entries keep their results |
| DecompilationCache.Cache.Put | src/logic/DecompilationCache.ts:11-14 | evicts first, then sets the key (an existing key keeps its place); afterwards `get` returns the new contents and every other surviving entry is unchanged |
| Decompiler.CacheKeyInjective | src/logic/Decompiler.ts:47-51 | for versions without ':' and class paths ending in `.class`, the key `version:className[:lambdas]` determines version, class and lambda flag, so two different requests never share a cache entry |
| Decompiler.NotFound | src/logic/Decompiler.ts:91-94 | a missing class yields the source `// Class not found: <className>`, no tokens, and the requested language |
| Decompiler.CacheKey | src/logic/Decompiler.ts:47-51 | `version:className`, with `:lambdas` appended when lambdas are shown; `Decompiler.CacheKeyInjective` states that the key determines all three |
| Decompiler.TokenOf | src/logic/Decompiler.ts:128-150 | each collector callback yields a token of its own kind with the callback's start, length and declaration flag; class tokens name the visited class; field and method tokens carry name and descriptor; parameter and local tokens carry neither |
| Decompiler.CollectedTokens | src/logic/Decompiler.ts:128-150 | the collected list has one token per callback, in call order |
| Decompiler.CollectTokens | src/logic/Decompiler.ts:128-150 | pushing tokens from the callbacks gives one token per callback, in call order |
| Decompiler.MatchAt | src/logic/Decompiler.ts:155 | a match of `^\s*import\s+(?!static\b)([^\s;]+)\s*;` starts where it was tried and has a non-empty group ending before the closing ';' |
| Decompiler.MatchShape | src/logic/Decompiler.ts:155 | a match reads `import` after the leading space; its group is a run of `[^\s;]` that is not the word `static`; only space follows the group up to the ';' |
| Decompiler.NextMatch | src/logic/Decompiler.ts:158 | `exec` from `lastIndex` returns a match of the pattern at or after `lastIndex` |
| Decompiler.NextMatchIsFirst | src/logic/Decompiler.ts:155-158 | `exec` returns a match at a line start (multiline `^`), and no line start before it from `lastIndex` on matches |
| Decompiler.MatchesAreMatches | src/logic/Decompiler.ts:157-158 | the `exec` loop visits matches at line starts, in increasing order, without overlap |
| Decompiler.ImportToken | src/logic/Decompiler.ts:159-172 | a wildcard import yields nothing; otherwise the token is a non-declaration class reference whose class is the group with '/' for '.' |
| Decompiler.ImportTokenPointsAtSimpleName | src/logic/Decompiler.ts:164-171 | the token of a non-wildcard import covers exactly the simple name at the end of the import path, in the source text |
| Decompiler.ImportTokensShape | src/logic/Decompiler.ts:159-172 | every import token is a non-declaration class reference that is not a wildcard |
| Decompiler.GenerateImportTokens | src/logic/Decompiler.ts:152-175 | the `exec` loop yields exactly the import tokens of the scan specification |
| Decompiler.ImportTokens | src/logic/Decompiler.ts:152-175 | the tokens the import loop pushes from a given `lastIndex`; `Decompiler.ImportTokensShape` and `Decompiler.GenerateImportTokens` state what they are |
| Decompiler.Resources | src/logic/Decompiler.ts:111 | the resource list has no more names than the archive has entries |
| Decompiler.ResourcesContents | src/logic/Decompiler.ts:111 | the resource list is the `.class` entries in archive order, one name per entry, each with its first `.class` removed |
| Decompiler.DecompileShapes | src/logic/Decompiler.ts:86-126 | a missing class gives the not-found source; a decompiler error gives `// Error during decompilation: <message>` and no tokens; otherwise the source is the decompiler's, and the tokens are the reported ones plus the import tokens, sorted by start, as a permutation |
| Decompiler.DecompileOutcome | src/logic/Decompiler.ts:86-126 | what `decompileClass` resolves to: not found, the decompiler's error or its text and tokens; `Decompiler.DecompileShapes` and `Decompiler.DecompiledTokens` state its three cases |
| Decompiler.DecompiledTokens | src/logic/Decompiler.ts:116-117 | the result's tokens are the collected tokens followed by the import tokens, sorted by start |
| Decompiler.ClassEntries | src/logic/Decompiler.ts:179 | the entries kept are exactly those ending in `.class` |
| Decompiler.WithPrefix | src/logic/Decompiler.ts:193-200 | keeps exactly the names starting with the prefix |
| Decompiler.BytecodeClassesSelection | src/logic/Decompiler.ts:177-200 | the bytecode view prints the selected class first, then exactly the archive's `.class` entries named `<outer>$...`, in sorted order |
| Decompiler.BytecodeClasses | src/logic/Decompiler.ts:179-200 | the class and then its `<outer>$` entries in sorted order; `Decompiler.BytecodeClassesSelection` states the selection |
| Decompiler.ClassBytes | src/logic/Decompiler.ts:190-200 | the bytes of each selected entry, in order; `Decompiler.NestedClassData` states what reaches the printer |
| Decompiler.BytecodeOutcome | src/logic/Decompiler.ts:177-210 | what `getClassBytecode` resolves to: not found, the printer's text or the retrieval error; `Decompiler.DecompilerState.GetClassBytecode` is proved to return it |
| Decompiler.NestedClassData | src/logic/Decompiler.ts:190-200 | the bytes collected are the selected class's, then those of each nested class in order |
| Decompiler.DecompilerState.constructor | src/logic/Decompiler.ts:21-30 | the cache starts empty and the counter at 0 |
| Decompiler.DecompilerState.IsDecompiling | src/logic/Decompiler.ts:23-26 | decompiling exactly while the counter is positive |
| Decompiler.DecompilerState.DecompileClass | src/logic/Decompiler.ts:86-126 | returns the decompile outcome; the counter returns to its old value whichever way the decompiler ends, and the cache is untouched |
| Decompiler.DecompilerState.GetClassBytecode | src/logic/Decompiler.ts:177-210 | returns the bytecode outcome: not found, the printer's text, or `// Error during bytecode retrieval: <message>`; the counter is balanced |
| Decompiler.DecompilerState.Emit | src/logic/Decompiler.ts:42-77 | bytecode view bypasses the cache; a hit returns the cached result and moves its key to the end; a miss decompiles, drops the oldest key when 75 are cached, and appends the new key with its result |
| Decompiler.DecompilerState.Store | src/logic/Decompiler.ts:68-75 | when 75 results are cached the oldest key is dropped; then the new key is appended with its result |
| Diff.OuterClass | src/logic/Diff.ts:85-88 | the outer class never holds '$'; for a path without '$' it is the path with its `.class` ending removed |
| Diff.AddEntry | src/logic/Diff.ts:90-96 | one loop turn: a new outer class takes the entry's CRC, a known one XORs it in; `Diff.TableAppend` and `Diff.ChecksumsContents` state its effect |
| Diff.Checksums | src/logic/Diff.ts:75-100 | the table `getEntriesWithCRC` builds, in archive order; `Diff.ChecksumsContents` states its keys and values and `Diff.GetEntriesWithCrc` is proved equal to it |
| Diff.GetEntriesWithCrc | src/logic/Diff.ts:75-100 | the pass over the entries builds exactly the checksum table of the specification |
| Diff.ChecksumsContents | src/logic/Diff.ts:75-100 | the table's keys are exactly the outer classes of the `.class` entries, each once in order of first appearance, and each value combines the CRCs of all the entries under that class |
| Diff.ContributionsFrom | src/logic/Diff.ts:79-88 | a class has contributions exactly when some `.class` entry groups under it |
| Diff.CombinedIsXor | src/logic/Diff.ts:92 | two or more CRCs combine to the signed 32-bit number whose bits are the XOR of theirs (JavaScript `^` on numbers) |
| Diff.CombinedOrderIndependent | src/logic/Diff.ts:90-96 | any reordering of a class's CRCs combines to the same value |
| Diff.ChecksumOrderIndependent | src/logic/Diff.ts:75-100 | a class's value depends only on the multiset of its entries' CRCs, not on archive order |
| Diff.UnionKeys | src/logic/Diff.ts:108-111 | the union holds exactly the keys of either side, without repeats when the left keys have none |
| Diff.ChangeOf | src/logic/Diff.ts:114-123 | the classification of one key, none when both sides agree; `Diff.ChangesClassify` states each case as an iff |
| Diff.Compared | src/logic/Diff.ts:106-124 | the `changes` map after visiting the keys in order; `Diff.ComparedContents` states its contents and `Diff.GetChangedEntries` is proved equal to it |
| Diff.GetChangedEntries | src/logic/Diff.ts:102-127 | the pass over the union of the keys builds exactly the change table of the specification |
| Diff.ComparedContents | src/logic/Diff.ts:113-124 | visiting distinct keys records each changed key once, in visiting order, with its classification |
| Diff.TableAppend | src/logic/Diff.ts:95 | `set` of a key not yet in a well-formed map appends it, keeps the map well-formed and leaves every other entry as it was |
| Diff.ChangesClassify | src/logic/Diff.ts:102-127 | a key only on the right is added, only on the left deleted, on both sides with different checksums modified (each an if-and-only-if), and no other key is reported |
| Diff.SelfDiffEmpty | src/logic/Diff.ts:102-127 | comparing a table with itself reports nothing |
| Inheritance.WithClass | src/logic/Inheritance.ts:29-36 | the node of the name exists afterwards; every existing node, its lists and its flags are unchanged |
| Inheritance.WithLink | src/logic/Inheritance.ts:38-51 | both nodes exist; the child's parents gain the parent and the parent's children gain the child, each only when missing; nothing else changes |
| Inheritance.AddParent | src/logic/Inheritance.ts:43-45 | the child's parent list gains the parent when missing, and every other list, flag and key is unchanged |
| Inheritance.AddChild | src/logic/Inheritance.ts:48-50 | the parent's child list gains the child when missing, and every other list, flag and key is unchanged |
| Inheritance.Link | src/logic/Inheritance.ts:38-51 | `addParentChildLink` on the index: it is the specified link and keeps the index well formed and mirrored |
| Inheritance.WithClassValid | src/logic/Inheritance.ts:29-36 | interning keeps the index well formed and mirrored, adds at most one node with no links and flags 0, and interning again changes nothing |
| Inheritance.WithLinkValid | src/logic/Inheritance.ts:38-51 | after linking, no node's parent or child list holds a repeat or a name outside the index |
| Inheritance.WithLinkMirrored | src/logic/Inheritance.ts:38-51 | every parent link has its child link and the other way round, before and after linking |
| Inheritance.WithLinkContents | src/logic/Inheritance.ts:42-50 | the parent is among the child's parents and the child among the parent's children, each once, and linking twice is linking once |
| Inheritance.RootWithin | src/logic/Inheritance.ts:15-23 | a walk along first parents that ends does so at a node of the index with no parents |
| Inheritance.RootWithinMore | src/logic/Inheritance.ts:15-23 | the root found does not depend on how many steps the walk is allowed, once it ends |
| Inheritance.WithFlags | src/logic/Inheritance.ts:77 | only the class's flags change, to the parsed ones, and the index stays well formed and mirrored |
| Inheritance.Info | src/logic/Inheritance.ts:74 | the name, superclass, interfaces and flags read are those of the parsed class file |
| Inheritance.LinkInterfacesParents | src/logic/Inheritance.ts:85-88 | the interface loop adds to the class's parents exactly the interfaces whose class files are in the archive, in order after the earlier parents, and changes no other node's parents and no flags |
| Inheritance.LinkInterfaces | src/logic/Inheritance.ts:85-88 | the interface loop, linking each interface whose class file is in the archive, in order; it keeps the index well formed and mirrored, and `Inheritance.LinkInterfacesParents` states the parents it adds |
| Inheritance.VisitParents | src/logic/Inheritance.ts:76-88 | one visit sets the class's flags, adds to its parents exactly the superclass and interfaces present in the archive, and changes no other node's parents or flags |
| Inheritance.Visit | src/logic/Inheritance.ts:76-88 | one pass of the build loop for a parsed class; it keeps the index well formed and mirrored, and `Inheritance.VisitParents` and `Inheritance.VisitSuperFirst` state its links |
| Inheritance.VisitSuperFirst | src/logic/Inheritance.ts:79-83 | a class met for the first time has its linked superclass as its first parent, the one the root walk follows |
| Inheritance.VisitArchiveLinked | src/logic/Inheritance.ts:79-88 | every parent link points at a class whose class file is in the archive |
| Inheritance.ParsedEntries | src/logic/Inheritance.ts:71-74 | the parse of each class file, in key order |
| Inheritance.FirstFailure | src/logic/Inheritance.ts:71-91 | no error exactly when every class file from that position on parsed |
| Inheritance.FirstFailureAt | src/logic/Inheritance.ts:71-91 | when the earlier class files parsed and the next did not, its error is the one the build stops with |
| Inheritance.Built | src/logic/Inheritance.ts:71-91 | the index after the first `k` class files, all of which parsed; it is well formed, mirrored and archive-linked |
| Inheritance.Build | src/logic/Inheritance.ts:61-97 | the build fails exactly when some class file does not parse; a finished index is well formed, mirrored and links only to classes in the archive |
| Inheritance.ProgressValues | src/logic/Inheritance.ts:90 | one value per visited class file: its position over the number of class files, as a rounded percentage |
| Inheritance.Published | src/logic/Inheritance.ts:65-93 | the published values start with 0, end with -1 and hold the visit values between |
| Inheritance.InheritanceIndex.constructor | src/logic/Inheritance.ts:26-27 | a new index holds no node |
| Inheritance.InheritanceIndex.AddClass | src/logic/Inheritance.ts:29-36 | the new index is the interned one |
| Inheritance.InheritanceIndex.AddParentChildLink | src/logic/Inheritance.ts:38-51 | the new index is the linked one |
| Inheritance.InheritanceIndex.AddChildParentLink | src/logic/Inheritance.ts:53-55 | it links with the arguments swapped |
| Inheritance.InheritanceIndex.GetRoot | src/logic/Inheritance.ts:15-23 | the loop returns the node where the first-parent walk ends, a node with no parents |
| Inheritance.InheritanceIndex.VisitClass | src/logic/Inheritance.ts:76-88 | the loop body turns the index into the visited one |
| Inheritance.InheritanceIndex.AddInterfaceLinks | src/logic/Inheritance.ts:85-88 | the interface loop turns the index into the one linked to each present interface |
| Inheritance.InheritanceIndex.VisitEntry | src/logic/Inheritance.ts:71-90 | one turn of the build loop: the parse error of that file, or the index advanced to the next `Built` state |
| Inheritance.InheritanceIndex.VisitEntries | src/logic/Inheritance.ts:71-91 | the loop stops at the first class file that does not parse, reporting its error; otherwise the index is the one built from every class file; one progress value per visit |
| Inheritance.BuildInheritanceIndex | src/logic/Inheritance.ts:61-97 | the result is the build's outcome, and progress starts at 0, carries one value per visited class file and ends at -1 on success and on failure alike |
| FileList.Find | src/ui/FileList.tsx:20 | the index found is the first node the test accepts, or -1 when none does |
| FileList.Walk | src/ui/FileList.tsx:19-35 | the walk of one path: reuse the matching node or append a new one, then descend; `FileList.WalkCases`, `FileList.WalkKeys` and `FileList.WalkAgrees` state its effect |
| FileList.WalkCases | src/ui/FileList.tsx:19-35 | one segment reuses the first matching node or appends a new one titled with `.class` removed and keyed by the path so far, then descends into that node's children unless the segment is the last |
| FileList.WalkKeys | src/ui/FileList.tsx:19-35 | walking a path (matching by key) adds to the level exactly the keys of the path's prefixes from the current segment on |
| FileList.WalkWellFormed | src/ui/FileList.tsx:19-35 | walking a path (matching by key) never gives two siblings the same key |
| FileList.InsertKeys | src/ui/FileList.tsx:16-35 | inserting a path adds exactly its directory and class keys to the tree, keeps sibling keys distinct, and makes the path itself a key |
| FileList.WalkAgrees | src/ui/FileList.tsx:19-35 | where every node on the path has its title equal to the segment exactly when its key is the path to that segment, the walk as written and the walk by key build the same tree |
| FileList.InsertAsWritten | src/ui/FileList.tsx:16-35 | one path inserted with the source's title matching; `FileList.ClassAndPackageMerge` and `FileList.InsertAsWrittenAgrees` state where it goes wrong and where it agrees |
| FileList.Insert | src/ui/FileList.tsx:16-35 | one path inserted with segments matched by key; `FileList.InsertKeys` states the keys it adds and that siblings stay distinct |
| FileList.InsertAsWrittenAgrees | src/ui/FileList.tsx:16-35 | inserting a path as written and inserting it by key give the same tree unless a title on the path is mistaken for a sibling package of the same name |
| FileList.ClassTitle | src/ui/FileList.tsx:23 | a class file's title is its name without `.class` |
| FileList.ClassAlone | src/ui/FileList.tsx:15-35 | a lone top-level class gives one node titled with its name and keyed by its file name |
| FileList.PackagePath | src/ui/FileList.tsx:16-24 | a class path under one package splits into the package and the class file, and the class node's key is the whole path |
| FileList.ClassInPackage | src/ui/FileList.tsx:19-35 | the class file of a package path lands as a new childless node in the package's empty level |
| FileList.ClassAndPackageMerge | src/ui/FileList.tsx:20 | as written, a class `a.class` and a class `a/b.class` share one top-level node keyed `a.class`, and no node is keyed `a` |
| FileList.MergedTree | src/ui/FileList.tsx:20 | as written, inserting `a.class` and then `a/b.class` gives one node keyed `a.class` holding the class `b` |
| FileList.BuildTree | src/ui/FileList.tsx:11-38 | the tree of the sorted paths holds exactly the directory and class keys the paths call for, every path is a key, and sibling keys are distinct |
| JavadocExtensions.NonEmpty | src/javadoc/JavadocCodeExtensions.ts:98-102 | a missing or empty Javadoc string counts as none; any other is kept |
| JavadocExtensions.JavadocForToken | src/javadoc/JavadocCodeExtensions.ts:95-106 | `getJavadocForToken`; `JavadocExtensions.JavadocForTokenCases` states when it yields text |
| JavadocExtensions.JavadocForTokenCases | src/javadoc/JavadocCodeExtensions.ts:95-106 | a class, method or field token has Javadoc `v` exactly when its class's entry holds the non-empty text `v` in the place its kind reads (the class's own text, or the method or field of the token's name); parameter and local tokens have none |
| JavadocExtensions.FirstNewline | src/javadoc/JavadocCodeExtensions.ts:110 | the first newline of `a + "\n" + b` is the one after `a` when `a` has none |
| JavadocExtensions.FormatMarkdownAsHtml | src/javadoc/JavadocCodeExtensions.ts:108-111 | `md.replace("\n", "<br>")`; `JavadocExtensions.FormatMarkdownAsHtmlCases` states that only the first newline changes |
| JavadocExtensions.FormatMarkdownAsHtmlCases | src/javadoc/JavadocCodeExtensions.ts:108-111 | text without a newline is unchanged; otherwise only the first newline becomes `<br>` and the rest, later newlines included, is kept |
| JavadocExtensions.ViewZones | src/javadoc/JavadocCodeExtensions.ts:17-40 | one zone per class declaration that has Javadoc, in token order, each placed after the line before its token's line and showing the Javadoc, formatted, in the comment-coloured span |
| JavadocExtensions.ZoneFor | src/javadoc/JavadocCodeExtensions.ts:26-36 | the zone of one documented class declaration, after the line before the token's line; `JavadocExtensions.ViewZones` states the whole list |
| JavadocExtensions.ZonesStep | src/javadoc/JavadocCodeExtensions.ts:20-39 | the zone of one more documented class follows the zones of the earlier ones |
| JavadocExtensions.CodeLenses | src/javadoc/JavadocCodeExtensions.ts:43-65 | one "Edit Javadoc" lens per declaration token that is not a parameter, in token order, on its token's line and carrying the token |
| CodeContextActions.ActionsAcceptMembersOnly | src/ui/CodeContextActions.ts:26-127 | each copy or find action produces text exactly for class, field and method tokens; a missing token, a parameter or a local gets an error message instead |
| CodeContextActions.CopyAw | src/ui/CodeContextActions.ts:26-45 | the Class Tweaker entry copied for a token, or the error shown; `CodeContextActions.ActionsAcceptMembersOnly`, `CodeContextActions.AwEntryFields` and `CodeContextActions.AwClassEntryFields` state its cases |
| CodeContextActions.CopyMixin | src/ui/CodeContextActions.ts:66-85 | the Mixin target copied for a token, or the error shown; `CodeContextActions.MixinTargetParts` and `CodeContextActions.MixinFieldName` state its shape |
| CodeContextActions.FindUsagesKey | src/ui/CodeContextActions.ts:108-127 | the usage query for a token, or the error shown; `CodeContextActions.UsageKeyFields` states its fields |
| CodeContextActions.InheritanceClassName | src/ui/CodeContextActions.ts:146 | the decompiled file's name with its first `.class` removed; `CodeContextActions.InheritanceClassNameOfFile` states what it gives for a class file |
| CodeContextActions.WordsOf | src/ui/CodeContextActions.ts:32-45 | space-separated words without spaces split back into those words |
| CodeContextActions.AwEntryFields | src/ui/CodeContextActions.ts:36-41 | a field or method Class Tweaker entry splits on spaces back into `accessible`, the kind, the class, the name and the descriptor when none of those holds a space |
| CodeContextActions.FiveWords | src/ui/CodeContextActions.ts:37-40 | five space-free words joined by single spaces split back into the five words |
| CodeContextActions.AwClassEntryFields | src/ui/CodeContextActions.ts:33-35 | a class entry splits on spaces into `accessible`, `class` and the class |
| CodeContextActions.MixinTargetParts | src/ui/CodeContextActions.ts:76-81 | a member's Mixin target starts with `L`, the owner runs up to the first ';', and the rest is the name then the descriptor, separated by ':' for a field and joined directly for a method |
| CodeContextActions.MixinFieldName | src/ui/CodeContextActions.ts:77 | a field's name comes back from the target's tail when it holds no ':' |
| CodeContextActions.UsageKeyFields | src/ui/CodeContextActions.ts:118-123 | a member's usage key splits on ':' into class, name and descriptor when none of them holds ':' |
| CodeContextActions.InheritanceClassNameOfFile | src/ui/CodeContextActions.ts:146 | the file `C.class` shows the class `C` when `.class` occurs only at its end; a name without `.class` is unchanged |
| CodeExtensions.TextSplitsAt | src/ui/CodeExtensions.ts:67-74 | the editor's text is the earlier lines, each with its newline, followed by the text of the rest |
| CodeExtensions.TextStartsWithFirst | src/ui/CodeExtensions.ts:67-74 | the text of a run of lines starts with its first line |
| CodeExtensions.TargetOffset | src/ui/CodeExtensions.ts:67-74 | the offset counts every earlier line plus its newline, then `column - 1`; a position on a character of its line gives the offset of that same character in the whole text |
| CodeExtensions.DefinitionToken | src/ui/CodeExtensions.ts:76-108 | the token found is a reference (not a declaration) of the token list that covers the offset, both ends included |
| CodeExtensions.FirstCovering | src/ui/CodeExtensions.ts:76-81 | the reference scan without the early stop: the first covering reference, and none only when no reference covers the offset |
| CodeExtensions.DefinitionTokenIsFirst | src/ui/CodeExtensions.ts:104-107 | on tokens sorted by start, stopping at the first reference past the offset finds the same token as a full scan |
| CodeExtensions.DefinitionLink | src/ui/CodeExtensions.ts:82-101 | a link is offered exactly when the class list is known and holds the token's class file or its outer class's file; it is a `goto` link to the class file and spans the token's length on the clicked line |
| CodeExtensions.GotoUri | src/ui/CodeExtensions.ts:90-95 | `goto://class/<file>`, with `#<type>:<descriptor-or-name>` for a token carrying a descriptor; `CodeExtensions.SplitFragment` and `CodeExtensions.DefinitionOpensTarget` state what opening it does |
| CodeExtensions.FindDefinitionToken | src/ui/CodeExtensions.ts:76-108 | the scan with its early exits returns the specified token |
| CodeExtensions.ProvideDefinition | src/ui/CodeExtensions.ts:59-111 | the provider's answer is the link of the token at the position's offset, or none |
| CodeExtensions.DefinitionAt | src/ui/CodeExtensions.ts:59-111 | what `provideDefinition` returns for a position; `CodeExtensions.ProvideDefinition` is proved to return it and `CodeExtensions.DefinitionTokenIsFirst` ties it to the first covering reference |
| CodeExtensions.OpenCodeEditor | src/ui/CodeExtensions.ts:117-153 | the opener declines exactly the links whose scheme does not start with `goto` |
| CodeExtensions.OuterOfClassFile | src/ui/CodeExtensions.ts:83-123 | `C.class` holds '$' exactly when `C` does, and then has the same outer class file |
| CodeExtensions.OuterClassFile | src/ui/CodeExtensions.ts:83 | `className.split('$')[0] + ".class"`; `CodeExtensions.OuterOfClassFile` and `CodeExtensions.InnerClassNotOuter` state its properties |
| CodeExtensions.OpenedTabIsOuter | src/ui/CodeExtensions.ts:122-151 | the tab the opener opens never names an inner class |
| CodeExtensions.SplitFragment | src/ui/CodeExtensions.ts:128-130 | a `type:target` fragment splits back into its two parts when neither holds ':' |
| CodeExtensions.DefinitionOpensTarget | src/ui/CodeExtensions.ts:91-151 | following the link of a method or field reference opens its outer class's tab and jumps to the method by descriptor or the field by name, at once exactly when that tab is already active |
| CodeExtensions.InnerClassLinkOpensOuter | src/ui/CodeExtensions.ts:139-151 | following the link of an inner-class reference opens its outer class's tab and jumps to the inner class's declaration by name |
| CodeExtensions.InnerClassNotOuter | src/ui/CodeExtensions.ts:123-139 | an inner class's file is never its outer class's file, so the inner-class branch is taken |
| CodeExtensions.JumpToToken | src/ui/CodeExtensions.ts:30-54 | the jump goes to the first declaration of the wanted kind matching the method descriptor, field name or class name, and to none when no declaration matches |
| CodeExtensions.LastLineSpec | src/ui/CodeExtensions.ts:163-173 | the last-line search names a line satisfying the test with none after it, or reports that no line does |
| CodeExtensions.FirstLineSpec | src/ui/CodeExtensions.ts:163-173 | the first-line search names a line satisfying the test with none before it, or reports that no line does |
| CodeExtensions.FindImportLines | src/ui/CodeExtensions.ts:159-173 | the loop finds the last package line, the first import line and the last import line |
| CodeExtensions.PackageNotImport | src/ui/CodeExtensions.ts:165-167 | a package line is never counted as an import |
| CodeExtensions.ContentAfter | src/ui/CodeExtensions.ts:178-184 | the loop reports whether a non-blank line follows |
| CodeExtensions.ImportFoldingRanges | src/ui/CodeExtensions.ts:158-208 | the function computes the specified import fold |
| CodeExtensions.ImportFolding | src/ui/CodeExtensions.ts:158-208 | the import fold from the line facts; `CodeExtensions.ImportFoldingShape` states its shape and `CodeExtensions.ImportFoldingRanges` is proved equal to it |
| CodeExtensions.ImportFoldingShape | src/ui/CodeExtensions.ts:158-208 | at most one import fold; none without imports; a fold ends on the last import line, some non-blank line follows it, and it covers every import when it starts no later than the first |
| CodeExtensions.BracketFoldingRanges | src/ui/CodeExtensions.ts:210-232 | the nested loops compute the specified bracket folds |
| CodeExtensions.BracketFolding | src/ui/CodeExtensions.ts:210-232 | the folds the bracket scan emits; `CodeExtensions.BracketFoldingShape` states their shape and `CodeExtensions.BracketFoldingRanges` is proved equal to it |
| CodeExtensions.ScanLine | src/ui/CodeExtensions.ts:219-228 | the character loop of one line pushes and pops as specified |
| CodeExtensions.ScanChars | src/ui/CodeExtensions.ts:219-228 | the character loop of one line over the open-bracket stack and the folds; `CodeExtensions.ScanCharsKeeps` states what it preserves |
| CodeExtensions.ScanLines | src/ui/CodeExtensions.ts:214-229 | the line loop; `CodeExtensions.ScanLinesKeeps` states what it preserves |
| CodeExtensions.ScanCharsKeeps | src/ui/CodeExtensions.ts:219-228 | within a line, every open bracket and every emitted fold stays well placed |
| CodeExtensions.ScanLinesKeeps | src/ui/CodeExtensions.ts:214-229 | after each line, every open bracket and every emitted fold stays well placed |
| CodeExtensions.BracketFoldingShape | src/ui/CodeExtensions.ts:210-232 | every bracket fold runs from a line holding '{' to a line holding '}', never starts on its own end line, and the folds come in the order of their end lines |
| CodeExtensions.ProvideFoldingRanges | src/ui/CodeExtensions.ts:234-238 | the import fold, then the bracket folds |
| JavaIndexer.WithUsage | java/src/main/java/mcsrc/Indexer.java:59-70 | a key outside `net/minecraft` and `com/mojang` leaves the table as it was; a game key becomes a key of the table |
| JavaIndexer.IsMinecraft | java/src/main/java/mcsrc/Indexer.java:68-70 | a key starting with `net/minecraft` or `com/mojang`; `JavaIndexer.WithUsage` states that other keys are dropped |
| JavaIndexer.WithUsageContents | java/src/main/java/mcsrc/Indexer.java:59-66 | afterwards a key's values are its earlier values, plus the new value exactly when the key is the reported one and names a game class |
| JavaIndexer.WithUsageIdempotent | java/src/main/java/mcsrc/Indexer.java:64 | a repeated report is stored once: the values form a set |
| JavaIndexer.WithUsagePairs | java/src/main/java/mcsrc/Indexer.java:59-66 | one call adds at most the reported pair to the stored pairs |
| JavaIndexer.ClassDataLineFields | java/src/main/java/mcsrc/Indexer.java:84-89 | a class-data line splits on '|' back into the class, the superclass (empty when absent), the flags and the interface list, which splits on ',' back into the interfaces, whenever the names hold neither separator |
| JavaIndexer.ClassDataLine | java/src/main/java/mcsrc/Indexer.java:84-89 | the `|`-separated line of one class; `JavaIndexer.ClassDataLineFields` states that it splits back into its fields |
| JavaIndexer.JoinAvoids | java/src/main/java/mcsrc/Indexer.java:88 | joining parts that avoid a character, with a separator that avoids it, avoids it |
| JavaIndexer.Indexer.constructor | java/src/main/java/mcsrc/Indexer.java:16-19 | the tables start empty and the counter at 0 |
| JavaIndexer.Indexer.AddUsage | java/src/main/java/mcsrc/Indexer.java:59-66 | the table becomes the one with the pair recorded and the counter grows by one, for game keys only; the class data is untouched; only game keys with at least one value are stored and the counter never falls below the number of stored pairs |
| JavaIndexer.Indexer.GetUsage | java/src/main/java/mcsrc/Indexer.java:29-32 | the values of the key, each exactly once, and none for an unknown key |
| JavaIndexer.Indexer.GetUsageSize | java/src/main/java/mcsrc/Indexer.java:34-37 | the counter of accepted calls, at least the number of distinct pairs stored |
| JavaIndexer.Indexer.AddClassData | java/src/main/java/mcsrc/Indexer.java:72-78 | the class's record is replaced as a whole, absent interfaces become none, and the usage table is untouched |
| JavaIndexer.Indexer.GetClassData | java/src/main/java/mcsrc/Indexer.java:80-92 | one line per recorded class, in the map's iteration order, each the class's `name\|super\|flags\|interfaces` line |
| JavaIndexer.DistinctKeysCard | java/src/main/java/mcsrc/Indexer.java:83 | a repeat-free listing of the map's classes has one line per class |
| JsInt32.XorBitsCommutes | src/logic/Diff.ts:92 | XOR of 32-bit patterns commutes |
| JsInt32.XorBitsAssociates | src/logic/Diff.ts:92 | XOR of 32-bit patterns associates |
| JsInt32.Xor | src/logic/Diff.ts:92 | `a ^ b` is a signed 32-bit number whose bit pattern is the XOR of the operands' low 32 bits |
| UsageMaps.Added | src/workers/UsageIndexWorker.ts:13-18 | adding a value makes its key present and adds no other key |
| UsageMaps.AddedPairs | src/workers/UsageIndexWorker.ts:13-18 | adding a value keeps every earlier pair and adds exactly the one pair |
| UsageIndexWorker.Collected | src/workers/UsageIndexWorker.ts:11-32 | the batch of a run of reports never holds a key with no value |
| UsageIndexWorker.CollectedContents | src/workers/UsageIndexWorker.ts:11-32 | a key holds a value exactly when some report filed that usage under that subject |
| UsageIndexWorker.CollectedKeys | src/workers/UsageIndexWorker.ts:11-32 | a key is present exactly when some report names it as its subject; no subject is filtered out |
| UsageIndexWorker.CollectedPairs | src/workers/UsageIndexWorker.ts:11-32 | the batch holds exactly the reported pairs |
| UsageIndexWorker.CollectedSameReports | src/workers/UsageIndexWorker.ts:11-32 | two runs making the same reports, in any order and with any repeats, give the same batch |
| UsageIndexWorker.UsageBatch.constructor | src/workers/UsageIndexWorker.ts:11 | a new batch is empty |
| UsageIndexWorker.UsageBatch.AddUsage | src/workers/UsageIndexWorker.ts:13-18 | the batch gains the value under the key, the key's set being created on first use |
| UsageIndexWorker.UsageBatch.AddClassUsage | src/workers/UsageIndexWorker.ts:21-23 | a class usage is filed under the class |
| UsageIndexWorker.UsageBatch.AddMethodUsage | src/workers/UsageIndexWorker.ts:24-26 | a method usage is filed under the method |
| UsageIndexWorker.UsageBatch.AddFieldUsage | src/workers/UsageIndexWorker.ts:27-29 | a field usage is filed under the field |
| UsageIndexWorker.Index | src/workers/UsageIndexWorker.ts:5-36 | after one job the version's store holds its earlier pairs plus exactly the pairs the indexer reported |
| UsageIndexDb.UsageStore.constructor | src/workers/UsageIndexDB.ts:13-39 | a new store holds no record |
| UsageIndexDb.UsageStore.Clear | src/workers/UsageIndexDB.ts:86-99 | every record is removed |
| UsageIndexDb.UsageStore.BatchWrite | src/workers/UsageIndexDB.ts:44-62 | the store gains exactly the pairs of the map; a pair already stored stays stored once, since records are keyed by the pair |
| UsageIndexDb.UsageStore.Read | src/workers/UsageIndexDB.ts:64-84 | the values stored under the key, each exactly once |
| Archive.ClassFileNames | src/workers/UsageIndex.ts:23-24 | the work list holds exactly the archive's entries ending in `.class`, nested classes included |
| Archive.RoundPercent | src/workers/UsageIndex.ts:43 | `Math.round(done / total * 100)` computed exactly on naturals; `Archive.RoundPercentBounds` and `Archive.RoundPercentMonotone` state its range and order |
| Archive.RoundPercentBounds | src/workers/UsageIndex.ts:43 | the rounded percentage lies within 0..100, is 0 for no work done and 100 for all of it |
| Archive.RoundPercentMonotone | src/workers/Decompile.ts:43 | more work done never lowers the rounded percentage |
| JarFile.FileList | src/logic/JarFile.ts:4-7 | the file list names exactly the archive's entries |
| JarFile.ClassesList | src/logic/JarFile.ts:9-12 | the `.class` entries without '$', in order; `JarFile.ClassesListContents` states its contents |
| JarFile.ClassesListContents | src/logic/JarFile.ts:9-12 | the class list holds exactly the entries ending in `.class` without '$', keeps their relative order, and the list of a concatenation is the concatenation of the lists |
| TaskQueue.Reversed | src/workers/Decompile.ts:22-32 | the order a stack is popped in: the items back to front |
| TaskQueue.Pop | src/workers/Decompile.ts:32 | popping gives the last item and the rest, or nothing on an empty stack |
| TaskQueue.ReversedSameItems | src/workers/Decompile.ts:30-44 | draining the stack takes every item exactly once |
| TaskQueue.DrainProgress | src/workers/Decompile.ts:43 | one value per completion: the completed count over the total, as a rounded percentage |
| TaskQueue.DrainProgressShape | src/workers/Decompile.ts:43 | the published percentages stay within 0..100, never go down, and the last completion publishes 100 |
| TaskQueue.ClassFileNamesDistinct | src/workers/UsageIndex.ts:23-24 | the work list never holds an entry twice |
| TaskQueue.FilterDistinct | src/logic/JarFile.ts:11 | filtering a repeat-free list keeps it repeat-free |
| DecompileJar.DecompileAll | src/workers/Decompile.ts:8-54 | the results map exactly the outer class files to their decompilations; the values published are the rounded percentages after each completion, ending at 100; the entries are decompiled in stack order |
| DecompileJar.DrainQueue | src/workers/Decompile.ts:29-47 | the worker loop stores every work-list entry's decompilation, publishes one percentage per completion and takes the entries from the end of the list |
| UsageIndexJar.IndexedPairsContents | src/workers/UsageIndex.ts:35-49 | after indexing, a pair is stored exactly when the indexer reported it for one of the class files |
| UsageIndexJar.IndexedPairs | src/workers/UsageIndex.ts:35-49 | every pair the indexer reports for the class files; `UsageIndexJar.IndexedPairsContents` states its members and `UsageIndexJar.IndexJar` is proved to store it |
| UsageIndexJar.PopStep | src/workers/UsageIndex.ts:36-48 | popping the next entry puts it after the entries popped so far, and its reports join the stored pairs |
| UsageIndexJar.IndexJar | src/workers/UsageIndex.ts:7-60 | when the store opens, it is cleared and then holds exactly the pairs reported for every class file, and progress is 0, one rounded percentage per class file, then -1; when opening or clearing fails, only 0 is published, the error is returned and the store is untouched |
| UsageIndexJar.DrainQueue | src/workers/UsageIndex.ts:34-50 | the worker loop publishes a percentage, then indexes, for every class file in stack order, and the store ends holding exactly their reported pairs |
| UsageIndexRun.UsageIndexRunner.constructor | src/logic/UsageIndex.ts:5-11 | no run is active and the progress is -1, which shows as idle |
| UsageIndexRun.IsIndexing | src/logic/UsageIndex.ts:7-9 | `progress >= 0`; `UsageIndexRun.CompletedRunIndexing` states when it holds |
| UsageIndexRun.UsageIndexRunner.RefreshIndex | src/logic/UsageIndex.ts:13-25 | a call during a run fails with "Indexing is already in progress" and changes nothing; otherwise the flag is cleared however the run ends, the store ends holding the reported pairs of every class file, progress goes 0, the percentages, -1, and after a store error it stays at 0 |
| UsageIndexRun.CompletedRunIndexing | src/logic/UsageIndex.ts:6-9 | a completed run shows as indexing from its first value to its last percentage and as idle at its end |
| IndexerRun.Visits | src/logic/Indexer.ts:31-32 | the value published for the i-th class is its 1-based position, the count and its name |
| IndexerRun.IsIndexing | src/logic/Indexer.ts:14-16 | `progress.total >= 0`; `IndexerRun.PublishedShape` states when it holds |
| IndexerRun.Published | src/logic/Indexer.ts:29-39 | the start, one value per class visited and the reset; `IndexerRun.PublishedShape` states its shape and `IndexerRun.IndexerRunner.RefreshIndex` is proved to publish it |
| IndexerRun.PublishedShape | src/logic/Indexer.ts:11-39 | a run shows as indexing from its start to its last visit, never counts past its total, and shows as idle once reset |
| IndexerRun.IndexerRunner.constructor | src/logic/Indexer.ts:11-18 | no run is active and the progress is the default, idle one |
| IndexerRun.IndexerRunner.RefreshIndex | src/logic/Indexer.ts:20-41 | a call during a run fails and changes nothing; otherwise the outer classes are visited in order until the first that fails to decompile, whose error is returned, every earlier one having succeeded; the flag is cleared and progress reset either way |
| Tabs.Keys | src/logic/Tabs.ts:5-8 | the keys of the tabs, in display order |
| Tabs.FindIndex | src/logic/Tabs.ts:21 | the first tab showing the key, or -1 exactly when no tab does |
| Tabs.InsertAt | src/logic/Tabs.ts:26 | `splice(i, 0, x)`: `x` at position `i`, the items before it kept, the items after it shifted right by one |
| Tabs.RemoveAt | src/logic/Tabs.ts:75 | `splice(i, 1)`: the item at `i` gone, the items after it shifted left by one |
| Tabs.SpliceStart | src/logic/Tabs.ts:81 | the start `splice` uses lies within the array and is the argument itself when that is in range |
| Tabs.WithoutKey | src/logic/Tabs.ts:48 | the remaining tabs are exactly the tabs whose key differs |
| Tabs.WithoutKeyOrder | src/logic/Tabs.ts:48 | the remaining keys are the old keys with the closed one deleted, in the same order |
| Tabs.Opened | src/logic/Tabs.ts:20-30 | the tabs after opening a key; `Tabs.OpenedContents`, `Tabs.OpenedNew` and `Tabs.OpenedNewKeys` state where the tab goes and what stays |
| Tabs.OpenedContents | src/logic/Tabs.ts:20-30 | opening never duplicates or loses a tab: the keys become the old keys plus the new one; an open key changes nothing; a new tab sits right after the active one, or last when no tab is active, and every other tab keeps its order |
| Tabs.OpenedNew | src/logic/Tabs.ts:21-29 | a key not yet open is inserted right after the active tab, or last when no tab is active |
| Tabs.OpenedNewKeys | src/logic/Tabs.ts:24-29 | inserting a tab for a key not yet open keeps the keys repeat-free and adds exactly that key |
| Tabs.InsertKeys | src/logic/Tabs.ts:26 | the keys after an insertion are the old keys with the new key inserted at the same place |
| Tabs.InsertDistinct | src/logic/Tabs.ts:24-29 | inserting a key not yet present keeps the keys repeat-free and adds just that key |
| Tabs.WithoutKeyKeys | src/logic/Tabs.ts:48 | a key remains exactly when it was open and is not the closed one, and the remaining keys stay repeat-free |
| Tabs.WithoutKeyCount | src/logic/Tabs.ts:45-48 | closing one of several repeat-free tabs removes at most one, so a tab always remains |
| Tabs.RemoveKeys | src/logic/Tabs.ts:75 | the keys after a removal are the old keys with that position removed |
| Tabs.RemoveDistinct | src/logic/Tabs.ts:75 | removing a position from repeat-free keys leaves them repeat-free and without the removed key |
| Tabs.MovedContents | src/logic/Tabs.ts:69-83 | reordering keeps the same tabs (the same multiset), the same keys, still repeat-free, and an unknown key changes nothing |
| Tabs.MovedPlace | src/logic/Tabs.ts:71-81 | the moved tab lands at the place index, one less when it moves right, clamped as `splice` clamps, and the other tabs keep their order |
| Tabs.InsertThenRemove | src/logic/Tabs.ts:75-81 | removing what was just inserted gives back the original |
| Tabs.MoveSameItems | src/logic/Tabs.ts:75-81 | taking an item out and putting it back anywhere keeps the same multiset |
| Tabs.Moved | src/logic/Tabs.ts:70-81 | the tabs after moving a key; `Tabs.MovedContents` and `Tabs.MovedPlace` state what stays and where it lands |
| Tabs.Initial | src/logic/Tabs.ts:10-12 | the start state, one tab for the selected file, active and in the history, is valid |
| Tabs.OpenTabOf | src/logic/Tabs.ts:14-42 | the state after `openTab`; `Tabs.OpenTabValid` and `Tabs.OpenTabHistory` state its effect |
| Tabs.OpenTabValid | src/logic/Tabs.ts:14-42 | with tabs disabled only the selected file changes; otherwise the key ends up open and active, the tabs gain at most that key, the history gains at most that key at its end and never passes 50, and the state stays valid |
| Tabs.CloseInactiveShape | src/logic/Tabs.ts:44-67 | closing an inactive tab drops its key from the tabs and the history and touches nothing else |
| Tabs.CloseActiveShape | src/logic/Tabs.ts:47-66 | closing the active tab leaves the remaining tabs and the popped history, extended at most by the newly activated key, which with tabs enabled is active and selected |
| Tabs.CloseActiveHistory | src/logic/Tabs.ts:47-61 | after closing the active tab the history is the popped one, extended at most by the next key, which with tabs enabled is active and selected |
| Tabs.OpenTabHistory | src/logic/Tabs.ts:14-42 | opening leaves the history as it was or extends it by the key alone, and with tabs enabled makes the key active, selecting it when it was not active already |
| Tabs.CloseTabOf | src/logic/Tabs.ts:44-67 | the state after `closeTab`; `Tabs.CloseTabEffect`, `Tabs.CloseActiveShape` and `Tabs.CloseInactiveShape` state its effect |
| Tabs.NextActiveNotClosed | src/logic/Tabs.ts:47-61 | the key activated after closing the active tab is never the closed key |
| Tabs.CloseTabKeepsValid | src/logic/Tabs.ts:44-67 | closing keeps the state valid |
| Tabs.CloseActiveValid | src/logic/Tabs.ts:50-64 | closing the active tab keeps the state valid |
| Tabs.CloseInactiveValid | src/logic/Tabs.ts:44-66 | closing an inactive tab keeps the state valid |
| Tabs.CloseTabEffect | src/logic/Tabs.ts:44-67 | closing the last tab does nothing; otherwise the key leaves the tabs and the history and every other tab stays; an inactive close keeps the active tab; closing the active tab with tabs enabled activates and selects a tab that is still open |
| Tabs.CloseActiveNext | src/logic/Tabs.ts:51-61 | the key activated after closing the active tab is a remaining tab |
| Tabs.NextActiveFromHistory | src/logic/Tabs.ts:51-55 | a non-empty last history entry is the key activated |
| Tabs.NextActiveFromLeft | src/logic/Tabs.ts:55-61 | without one, the tab left of the closed one is activated, clamped to the remaining tabs |
| Tabs.NextActive | src/logic/Tabs.ts:51-61 | the key activated after closing the active tab; `Tabs.NextActiveFromHistory`, `Tabs.NextActiveFromLeft` and `Tabs.NextActiveNotClosed` state where it comes from |
| Tabs.PoppedWithin | src/logic/Tabs.ts:47-53 | the filtered and popped history stays within 50 entries and names remaining tabs only |
| Tabs.SetTabPositionValid | src/logic/Tabs.ts:69-83 | reordering keeps the state valid and the same tabs open |
| Tabs.SetTabPositionOf | src/logic/Tabs.ts:69-83 | the state after `setTabPosition`; `Tabs.SetTabPositionValid` states that it stays valid with the same tabs |
| Tabs.TabState.constructor | src/logic/Tabs.ts:10-12 | the subjects start in the initial state |
| Tabs.TabState.OpenTab | src/logic/Tabs.ts:14-42 | the new state is the opened one |
| Tabs.TabState.CloseTab | src/logic/Tabs.ts:44-67 | the new state is the closed one |
| Tabs.TabState.SetTabPosition | src/logic/Tabs.ts:69-83 | the new state is the reordered one |
| Search.SimpleName | src/logic/Search.ts:22 | the simple name is a suffix of the class name: the part after the last '/', or the whole name when that part is empty |
| Search.IsMatch | src/logic/Search.ts:21-24 | the filter: the lower-cased simple name holds the lower-cased query |
| Search.Take | src/logic/Search.ts:25 | exactly the first `n` items when there are more than `n`, and all of them otherwise |
| Search.SearchResults | src/logic/Search.ts:12-29 | the results for one emission of the class list and the query; `Search.SearchResultsContents` and `Search.SearchingShowsResults` state what they hold |
| Search.IsSearching | src/logic/Search.ts:31-33 | `query.length > 0`; `Search.SearchingShowsResults` ties it to the results |
| Search.SearchResultsContents | src/logic/Search.ts:12-29 | an empty query gives no results; otherwise at most 100 results, each a listed class whose lower-cased simple name holds the lower-cased query, forming the start of the matching classes in list order: all of them when no more than 100 match, and exactly the first 100 when more do |
| Search.SearchingShowsResults | src/logic/Search.ts:12-33 | the results are non-empty exactly when `isSearching` holds and some class in the list matches the query |
| Search.SimpleNameFallback | src/logic/Search.ts:22 | a class with no '/', or one whose name ends in '/', is matched on its whole name |
| State.InitialFile | src/logic/State.ts:5-14 | the selected file at start always ends with `.class` |
| State.InitialFileCases | src/logic/State.ts:5-14 | a path without a leading '/' or with nothing after it opens the default class; otherwise the decoded rest is kept when it ends with `.class` and gets `.class` appended once when it does not |
| State.Url | src/logic/State.ts:19 | the URL path written for a selection starts with '/' |
| State.UrlFixed | src/logic/State.ts:19 | the corrected URL path starts with '/' |
| State.UrlFixedReloads | src/logic/State.ts:5-19 | reloading at the corrected URL of a class file selects that class file again |
| State.UrlAgreesWithoutInnerClassText | src/logic/State.ts:19 | when `.class` occurs in the path only at its end, the URL as written is the corrected one |
| State.FirstClassText | src/logic/State.ts:19 | the first `.class` of `pre.class` followed by anything is the one after `pre` |
| State.UrlLosesInnerClassText | src/logic/State.ts:19 | as written, the URL of `pre.class` + `mid.class` drops the first `.class`, and reloading it selects a different file |
| State.AfterLastSlash | src/logic/State.ts:20 | the part after the last '/' of `dir/tail` is `tail` when `tail` holds no '/' |
| State.Title | src/logic/State.ts:20-21 | the document title; `State.TitleOfClassFile` states it for a class file |
| State.TitleOfClassFile | src/logic/State.ts:20-21 | the title of `dir/Name.class` is `Name` when `.class` occurs in the file name only at its end |
| Settings.StorageKey | src/logic/Settings.ts:8-25 | the store key is the setting's key behind the `setting_` prefix |
| Settings.InitialValue | src/logic/Settings.ts:8-9 | `stored === 'true'` when something is stored, else the default; `Settings.StoredValueReading` and `Settings.SettingRoundTrip` state how it reads |
| Settings.Storage.constructor | src/logic/Settings.ts:8 | the store holds the given items |
| Settings.BooleanSetting.constructor | src/logic/Settings.ts:7-13 | a new setting reads `true` exactly when the stored text is "true", and its default when nothing is stored |
| Settings.BooleanSetting.Value | src/logic/Settings.ts:19-21 | the `value` getter; `Settings.BooleanSetting.SetValue` and `Settings.SettingRoundTrip` state what it reads back |
| Settings.BooleanSetting.SetValue | src/logic/Settings.ts:23-26 | the value becomes the new one and the store holds its text under the setting's key, so that a new setting with that key reads it back whatever its default |
| Settings.SettingRoundTrip | src/logic/Settings.ts:7-26 | after storing a value, a new setting with the same key reads that value whatever its default |
| Settings.StoredValueReading | src/logic/Settings.ts:9 | stored text reads as true exactly when it is "true" |
| Settings.StorageKeysDistinct | src/logic/Settings.ts:8-25 | settings with different keys use different store entries, so setting one never changes another |
| Sorting.Insert | src/logic/Decompiler.ts:117 | inserting keeps every element and adds exactly the new one |
| Sorting.Sort | src/logic/Decompiler.ts:117 | sorting is a permutation of its input |
| Sorting.InsertSorted | src/logic/Decompiler.ts:117 | inserting into a sorted list keeps it sorted |
| Sorting.SortSorted | src/ui/FileList.tsx:15 | the sorted list is ordered by the comparison |
| InsertionOrder.Without | src/logic/Decompiler.ts:56-72 | `delete` removes exactly the key from the key order and keeps the others, repeat-free |
| InsertionOrder.SetKey | src/logic/DecompilationCache.ts:13 | `set` appends a new key at the end and leaves an existing key where it is |
| InsertionOrder.MoveToEnd | src/logic/Decompiler.ts:56-57 | `delete` then `set` moves the key to the end, keeping the same keys |

## Left out

- Network and archive transport: downloading a version (`MinecraftApi`) and unzipping a jar (JSZip) are not part of this model; a jar is a list of paths with their bytes, and the CRC-32 of each entry is read from the archive's metadata as given.
- IndexedDB transport: opening, upgrading and closing the usage database and its "Database not opened" errors are not modelled; a failure to open the store is a parameter of `UsageIndexJar.IndexJar`, and clears and writes always succeed.
- Engines outside the core are parameters: the Vineflower decompiler, the bytecode printer, the TeaVM/ASM `index` call of the Java indexer, UTF-8 `TextDecoder` (names stay bytes) and `decodeURIComponent`.
- rxjs timing (`throttleTime`, `distinctUntilChanged`, `switchMap` cancellation, `shareReplay`, `combineLatest`) is not modelled; only the function applied to each emitted value is.
- Parallelism: the worker pool sized by `hardwareConcurrency`, Comlink calls and `Promise.all` are modelled as one sequential drain of the shared queue; interleavings of workers are not captured.
- Worker failures during a drain: a job that rejects inside the `new Promise` executor of the decompile and usage-index runs would leave the outer promise unsettled; the model's jobs are total functions of their input, so that path is not modelled.
- `performance.now` timings and console logging are dropped.
- Floating point: `Math.round(done / total * 100)` is modelled as exact integer rounding (`Archive.RoundPercent`); `Float` and `Double` constant-pool entries are skipped as their byte length only.
- JavaIndexer.Indexer.AddUsage: the usage counter, `GetUsageSize` and the access flags are unbounded integers; Java's 32-bit `int` overflow after 2^31 usages is not modelled.
- Iteration order of Java's `HashMap`/`HashSet` is a parameter (the order of the keys handed to the walk), not the hash order.
- Inheritance.InheritanceIndex.GetRoot: requires that the walk along first parents ends within a bound; the source has no cycle guard and would loop forever on a cyclic hierarchy.
- Tabs: `setSelectedFile` is modelled as a field update, the scroll position is an integer, and the `enable_tabs` setting is a parameter.
- Monaco editor: `Uri.parse` is a structured value, `getTokenLocation`'s line lookup is a `lineOf` parameter, and selection, `revealLine`, microtask and listener timing of the jump-to-token action are not modelled; view-zone DOM nodes, `heightInLines` and the Javadoc edit command with its disposal are left out.
- Clipboard writes and toast messages are sinks and are left out; the model returns the text that would be copied.
- Strings: UTF-16 code units stand in for characters, `toLowerCase` is restricted to ASCII letters, and `trim` uses JavaScript's whitespace class (`Strings.IsSpace`).
- Javadoc lookups by key on a plain object would also find inherited keys such as `toString`; the model's map holds only the stored entries.
- FileList: the tree is built on values by a recursive insertion rather than by mutating `children` arrays in place, and it matches nodes by key (the corrected behaviour in "## Findings"); `FileList.InsertAsWrittenAgrees` shows this is the tree as written wherever titles and keys pick the same nodes. The order of siblings is not stated.
- The React components, styling and the rest of the user interface are not part of this model.

## Findings

| source | as written | input that shows it | evidently intended | confidence | as-written member | corrected member |
|---|---|---|---|---|---|---|
| src/logic/State.ts:19 | the address bar path is built with `replace(".class", "")`, which removes the FIRST occurrence of `.class` | the file `a.classes/B.class` gives the path `/aes/B.class`, which reloads as the file `aes/B.class` | strip only the trailing `.class`, so that reloading the URL opens the same file | not executed | State.UrlLosesInnerClassText | State.UrlFixedReloads |
| src/ui/FileList.tsx:20 | an existing child is found by comparing its title (the name without `.class`) with the raw path segment | the paths `A.class` and `A/B.class`: the package `A` matches the class node `A.class`, so `B.class` is filed under the class and no node `A` exists | match an existing child by its key, so that a class and a package of the same name stay apart | not executed | FileList.ClassAndPackageMerge | FileList.InsertKeys |
