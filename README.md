# ILWIS connectors: feature geometry codecs and connector rules

This project models the core of the IlwisConnectors repository. The
connectors load and store ILWIS objects in legacy ILWIS-3 files, in
PostgreSQL/PostGIS databases and through GDAL. The project proves what
their code promises.

## The ILWIS-3 feature connector

This is the main part (`ilwis3connector/featureconnector.cpp`).

**Reading polygons.** A polygon map comes in one of two on-disk formats:

- The indexed (3.0) format stores a polygon as a start chain in a
  topology table of linked boundary chains. `getRings` walks these links
  and collects the rings that close (`rings.dfy`).
- The stream (3.7) format stores polygons one after the other in a
  ".mpz#" file. `readRing` and `loadBinaryPolygons37` read it
  (`polygonstream.dfy`).

**Writing polygons.** `writeCoords` and `storeBinaryDataPolygon` write
the stream format. Reading back what they wrote gives the stored
polygons (`roundtrip.dfy`).

**Lines, points and metadata.**

- `featureloaders.dfy` models the line and point loaders, the choice of
  polygon format, the dispatch on the feature type and the detection of
  that type from the object definition file.
- `featurestore.dfy` models the writers of the object definition keys,
  the dispatch of `storeBinaryData` and the segment records of
  `storeBinaryDataLine`.

**Shared definitions.**

- Coordinates are only copied and compared. A double is therefore kept
  as its eight raw bytes (`bytes.dfy`, `geometry.dfy`).
- `float64.dfy` computes the three facts the connector needs from the
  IEEE-754 bit pattern: the sign test of a deleted polygon's area, the
  double holding a raw id, and the conversion of a double to `quint32`.
- `odf.dfy` is the object definition (ini) file.
- `features.dfy` holds the key rule shared by the loaders.

## Smaller rules from the other connectors

- `raster.dfy` (`ilwisrastercoverageconnector.cpp`) covers:
  - the store type and store size;
  - integer pixel values at offset index × store size;
  - the block loop of `conversion`;
  - the converter choice from DomainInfo;
  - the '#' suffix of data files;
  - the store type written by `storeMetaData`.
- `coordsys.dfy` (`ilwis3connector/coordinatesystemconnector.cpp`)
  covers:
  - the projection parameter names;
  - `canUse`;
  - the CoordBounds rule;
  - the datum lookup name;
  - the ellipsoid choice.
- `pgconnection.dfy` covers the PostgreSQL connection operation:
  validation in `prepare` and the URL built by `execute`.
- `pgtable.dfy` covers the PostgreSQL table loader: the `udt_name`
  classifier, the column list and the record loop.
- `pgfeature.dfy` covers the PostgreSQL feature loader:
  - the SELECT statement;
  - geometry slots, features and sub-features;
  - feature-count levels;
  - the coordinate system and envelope.
- `gdal.dfy` (`gdalconnector/gdalcatalogexplorer.cpp`) covers:
  - the extension filters;
  - the extended type of an extension;
  - `canUse`;
  - the resources `loadItems` returns.

`seqs.dfy`, `text.dfy` and `wrappers.dfy` hold generic sequence lemmas,
the QString operations the code uses, and `Option`.

### Imperative and pure parts

The loops of the source are methods with loop invariants, proved against
a specification function. The file writer, the input stream, the ini
file, the raster connector, the PostgreSQL connection operation and the
loader's table are classes whose methods state the new state.

### Behaviour of the code worth knowing

- **Ring buffer.** The ring buffer of `getRings` is overwritten by each
  chain, so a ring is a single chain that closes on itself
  (`Rings.EmittedRingsAreSingleChains`).
- **Raw id.** The id written after each outer ring is a counter
  starting at 1 (`PolygonStream.StoreBinaryDataPolygon`).
- **Corrupt data.** A walk that stops on the corrupt-data guard
  (`Rings.SelfLinkIsCorrupt`) gives no feature for that polygon, and
  the loader goes on with the next row (`FeatureLoaders.Load30Rows`).
- **Termination.** Nothing but the self-link guard ends a walk early. A
  link cycle that avoids the start chain runs forever
  (`Rings.CycleAfterStart`).

## Model

| member | source | states |
|---|---|---|
| Geometry.Reverse | ilwis3connector/featureconnector.cpp:122-127 | the reversed chain has the same length, element i is element n-1-i of the chain |
| Geometry.ReverseClosed | ilwis3connector/featureconnector.cpp:119-131 | a reversed chain is closed iff the chain is |
| Geometry.DedupNoAdjacentDuplicates | ilwis3connector/featureconnector.cpp:134-141 | the ring after duplicate removal has no two equal neighbours, does not start with the undefined coordinate crdOld starts as, and is no longer than the buffer |
| Geometry.DedupIsSubsequence | ilwis3connector/featureconnector.cpp:134-141 | the emitted ring is a subsequence of the buffer |
| Geometry.DedupKeeps | ilwis3connector/featureconnector.cpp:134-141 | only repetitions are dropped: every other coordinate of the buffer stays |
| Geometry.DedupFixpoint | ilwis3connector/featureconnector.cpp:134-141 | a ring without repeated neighbours passes through unchanged |
| Geometry.DedupIdempotent | ilwis3connector/featureconnector.cpp:134-141 | removing duplicates twice changes nothing |
| Geometry.DedupEnds | ilwis3connector/featureconnector.cpp:133-142 | duplicate removal keeps the first and last coordinate, so a closed buffer gives a closed ring |
| Geometry.DedupTailLast | ilwis3connector/featureconnector.cpp:134-141 | the deduplicated tail ends with the buffer's last coordinate |
| Rings.StartLink | ilwis3connector/featureconnector.cpp:164-171 | a link is one less than its raw value, except iUNDEF, which stays |
| Rings.IsForwardStartDirection | ilwis3connector/featureconnector.cpp:161-189 | equal absolute links give forward; otherwise a negative start index gives backward; otherwise forward iff the start chain's last coordinate is the first coordinate of the chain its forward link names (a positive link) or its last coordinate (a negative one) |
| Rings.StartDirectionIsLocal | ilwis3connector/featureconnector.cpp:161-189 | the direction depends only on the start row's links, its chain and the chain its forward link names |
| Rings.StepBuffer | ilwis3connector/featureconnector.cpp:119-131 | an empty or closed chain replaces the buffer as stored; otherwise a chain ending where the buffer ends, or starting where it starts, replaces it reversed; else one ending where the buffer starts replaces it as stored; else the buffer stays |
| Rings.StepBufferCloses | ilwis3connector/featureconnector.cpp:119-133 | a step closes the buffer only by keeping it or by replacing it with a chain that is a finished ring by itself |
| Rings.DedupRing | ilwis3connector/featureconnector.cpp:134-141 | the duplicate-removal loop computes Dedup from the undefined coordinate |
| Rings.UpdateBuffer | ilwis3connector/featureconnector.cpp:119-131 | the buffer update branches compute StepBuffer |
| Rings.GetRings | ilwis3connector/featureconnector.cpp:109-159 | the do-while loop computes the walk GetRingsSpec: the rings found, the corrupt-data failure, or running out of the step bound |
| Rings.WalkFuelMonotone | ilwis3connector/featureconnector.cpp:117-156 | a walk that ends within a step bound ends the same way under any larger bound |
| Rings.VisitFuelMonotone | ilwis3connector/featureconnector.cpp:117-156 | likewise for the walk from one visit |
| Rings.GetRingsFuelMonotone | ilwis3connector/featureconnector.cpp:109-159 | a getRings result reached within a step bound is the result under every larger bound, so the bound only decides whether the walk is seen to end |
| Rings.VisitChain | ilwis3connector/featureconnector.cpp:117-156 | one loop turn: either the walk ends with the visit's outcome or it continues from the new row, direction, buffer and rings |
| Rings.VisitEmitsChainRing | ilwis3connector/featureconnector.cpp:119-145 | one visit adds at most one ring, and only a whole chain that closes |
| Rings.WalkEmitsChainRings | ilwis3connector/featureconnector.cpp:117-156 | every ring a walk emits is a single closed chain, deduplicated |
| Rings.EmittedRingsAreSingleChains | ilwis3connector/featureconnector.cpp:109-159 | every ring getRings returns is one chain of the table that closes on itself |
| Rings.ChainRingShape | ilwis3connector/featureconnector.cpp:133-142 | an emitted ring has no equal neighbours, deduplicating it again changes nothing, and it is a subsequence of a closed chain |
| Rings.OpenChainsYieldNoRings | ilwis3connector/featureconnector.cpp:109-159 | a table whose chains are all open yields no ring |
| Rings.WalkOverOpenChains | ilwis3connector/featureconnector.cpp:117-156 | the walk over open chains collects nothing |
| Rings.IslandChain | ilwis3connector/featureconnector.cpp:109-159 | a start chain linked straight back to itself gives exactly its own ring when it closes, and no ring otherwise |
| Rings.CycleNeverEnds | ilwis3connector/featureconnector.cpp:146-156 | inside a two-chain cycle that avoids the start, the walk never ends for any step bound |
| Rings.CycleAfterStart | ilwis3connector/featureconnector.cpp:109-159 | getRings from a chain leading into such a cycle does not terminate |
| Rings.SelfLinkIsCorrupt | ilwis3connector/featureconnector.cpp:146-154 | a chain other than the start that links to itself stops the walk on the corrupt-data guard |
| Features.Key | ilwis3connector/featureconnector.cpp:93-103 | a key converted from a double is below 2^32 |
| Features.Keyed | ilwis3connector/featureconnector.cpp:94-103 | a numeric map keys a feature by its row and stores the value; any other map keys it by the value converted to quint32 and stores no value |
| Bytes.FromLittleEndianOfLittleEndian | ilwis3connector/featureconnector.cpp:512-515 | an unsigned count written in 4 little-endian bytes reads back as itself |
| Bytes.LittleEndianOfFromLittleEndian | ilwis3connector/featureconnector.cpp:238-240 | the bytes of a count read, written back, are the same bytes |
| Bytes.ZeroPadded | ilwis3connector/featureconnector.cpp:240-243 | a short read into a zeroed buffer leaves a buffer of the full size |
| Bytes.ZeroPaddedFull | ilwis3connector/featureconnector.cpp:240-243 | a full read needs no padding |
| Float64.TruncToUInt32 | ilwis3connector/featureconnector.cpp:99 | the quint32 conversion of a double yields a value below 2^32 |
| Float64.BitsOfFromNat | ilwis3connector/featureconnector.cpp:408 | a whole number below 2^53, held in a double as the raw id counter is, has the IEEE-754 bit pattern of that number |
| Float64.TruncOfFromNat | ilwis3connector/featureconnector.cpp:225 | a raw id below 2^32, stored as a double and converted back to quint32, is itself |
| Float64.TruncOfNormal | ilwis3connector/featureconnector.cpp:225 | a non-negative double with unbiased exponent s at most 31 truncates to the whole part of its significand shifted by s |
| Odf.ValueOf | ilwis3connector/featureconnector.cpp:253-254 | a key reads its value, a missing key reads sUNDEF |
| Odf.ValueOfSet | ilwis3connector/featureconnector.cpp:530-539 | a key set reads back, every other key keeps its value |
| Odf.OdfFile.constructor | ilwis3connector/featureconnector.cpp:253 | a file opens with its keys as on disk |
| Odf.OdfFile.SetKeyValue | ilwis3connector/featureconnector.cpp:530-539 | setKeyValue changes that key only and nothing on disk |
| Odf.OdfFile.Store | ilwis3connector/featureconnector.cpp:568 | store writes the current keys to disk |
| PolygonStream.RecordFields | ilwis3connector/featureconnector.cpp:244-247 | the x and y of an XYZ record read back as written |
| PolygonStream.CoordsOfCoordsBytes | ilwis3connector/featureconnector.cpp:242-247 | decoding the XYZ records of a ring gives the ring back |
| PolygonStream.OutputFile.constructor | ilwis3connector/featureconnector.cpp:400-404 | a new output file is empty |
| PolygonStream.OutputFile.Write | ilwis3connector/featureconnector.cpp:415 | a write appends its bytes |
| PolygonStream.ByteCount | ilwis3connector/featureconnector.cpp:524 | the byte count is at most 24 per coordinate, exactly that below 2^32 |
| PolygonStream.WrappedByteCount | ilwis3connector/featureconnector.cpp:512-524 | the quint32 product from the wrapped count is the byte count |
| PolygonStream.EncodeCoordsLayout | ilwis3connector/featureconnector.cpp:511-526 | writeCoords writes the 4-byte count (not for a singleton), then 24 bytes per coordinate |
| PolygonStream.WriteCoords | ilwis3connector/featureconnector.cpp:511-526 | the file gains exactly EncodeCoords of the ring |
| PolygonStream.FillRecords | ilwis3connector/featureconnector.cpp:516-523 | the fill loop produces the XYZ records of the coordinates, z zero |
| PolygonStream.NumberedAppend | ilwis3connector/featureconnector.cpp:408-423 | records of two runs, the second numbered on from the first, are the records of both runs |
| PolygonStream.StoreBinaryDataPolygon | ilwis3connector/featureconnector.cpp:399-430 | the file gains the records of every polygon feature, trackSize times, raw ids counting from 1 |
| PolygonStream.StoreFeatures | ilwis3connector/featureconnector.cpp:409-425 | the feature loop writes the numbered records of the flattened polygons |
| PolygonStream.StoreFeature | ilwis3connector/featureconnector.cpp:410-423 | one feature writes its polygon once per track position, or nothing, and advances raw by that count |
| PolygonStream.WriteTrack | ilwis3connector/featureconnector.cpp:411-423 | the track loop writes trackSize numbered copies of the polygon record |
| PolygonStream.WriteNext | ilwis3connector/featureconnector.cpp:412-421 | one turn writes the next copy and leaves one copy fewer to write |
| PolygonStream.CopiesNumbered | ilwis3connector/featureconnector.cpp:411-423 | n copies numbered on are the numbered records of n repeats |
| PolygonStream.WritePolygon | ilwis3connector/featureconnector.cpp:413-421 | one record: outer ring, 8-byte raw id, hole count as quint32, each hole |
| PolygonStream.WriteRings | ilwis3connector/featureconnector.cpp:418-420 | the hole loop writes each hole with its count |
| PolygonStream.RequestedLength | ilwis3connector/featureconnector.cpp:243 | the int length asked for is 24 bytes per coordinate below 2^31; wrapped, it is negative or no more than that |
| PolygonStream.Take | ilwis3connector/featureconnector.cpp:240-243 | a read gets a prefix of the input, at most the length asked, exactly it when available |
| PolygonStream.DataStream.constructor | ilwis3connector/featureconnector.cpp:205 | the stream starts at the file's first byte |
| PolygonStream.DataStream.ReadRawData | ilwis3connector/featureconnector.cpp:240-243 | readRawData returns Take of the unread input and consumes it |
| PolygonStream.ReadRingSpec | ilwis3connector/featureconnector.cpp:237-250 | readRing fails, with an empty ring and nothing consumed, exactly when no byte of the count can be read |
| PolygonStream.ReadRing | ilwis3connector/featureconnector.cpp:237-250 | readRing on the stream computes ReadRingSpec |
| PolygonStream.DecodeCoords | ilwis3connector/featureconnector.cpp:245-247 | the copy loop takes x and y of each XYZ record |
| PolygonStream.ReadRingsSpec | ilwis3connector/featureconnector.cpp:217-219 | the hole loop reads exactly numberOfHoles rings |
| PolygonStream.ReadRingsUnfold | ilwis3connector/featureconnector.cpp:218-219 | the holes are the next ring read, then the remaining holes |
| PolygonStream.ReadRings | ilwis3connector/featureconnector.cpp:217-219 | the hole loop on the stream computes ReadRingsSpec |
| PolygonStream.ReadRingsBy | ilwis3connector/featureconnector.cpp:218-219 | the hole loop computes the hole reader |
| PolygonStream.ReadNextRing | ilwis3connector/featureconnector.cpp:219 | one pass reads the next hole and leaves one hole fewer |
| PolygonStream.ReadPolygon | ilwis3connector/featureconnector.cpp:211-219 | one polygon: outer ring, value, hole count and holes, as ReadPolygonSpec |
| PolygonStream.LoadBinaryPolygons37 | ilwis3connector/featureconnector.cpp:192-235 | the loop reads nrPolygons polygons and creates one keyed feature per polygon, ignoring readRing's result |
| PolygonStream.LoadNext | ilwis3connector/featureconnector.cpp:210-231 | one turn creates the next feature and leaves the rest to the loop |
| PolygonStream.Load37Unfold | ilwis3connector/featureconnector.cpp:210-231 | feature j is polygon j keyed by the key rule, then the rest |
| PolygonRoundTrip.ReadRingOfEncoded | ilwis3connector/featureconnector.cpp:237-250 | readRing reads back a ring writeCoords wrote and stops right after it |
| PolygonRoundTrip.ReadRingsOfEncoded | ilwis3connector/featureconnector.cpp:218-219 | the hole loop reads back the holes written one after the other |
| PolygonRoundTrip.ReadHeaderOfEncoded | ilwis3connector/featureconnector.cpp:215-216 | the raw id and hole count read back as written |
| PolygonRoundTrip.ReadPolygonOfRecord | ilwis3connector/featureconnector.cpp:211-219 | a polygon record reads back as the polygon and its raw id |
| PolygonRoundTrip.Reloaded | ilwis3connector/featureconnector.cpp:220-229 | reloaded feature i is polygon i, keyed as row j + i with value raw + i |
| PolygonRoundTrip.Load37OfRecord | ilwis3connector/featureconnector.cpp:210-231 | the first record read gives the first feature |
| PolygonRoundTrip.Load37OfNumbered | ilwis3connector/featureconnector.cpp:210-231 | a run of numbered records loads as the features Reloaded describes |
| PolygonRoundTrip.StoreThenLoad | ilwis3connector/featureconnector.cpp:399-430 | storing and reloading as many polygons as were written gives one feature per record, in order, whatever follows in the file |
| PolygonRoundTrip.ReloadedKeys | ilwis3connector/featureconnector.cpp:220-229 | reloaded keys are the row (numeric map) or the row plus one (raw id) |
| FeatureLoaders.CollectRows | ilwis3connector/featureconnector.cpp:76-104 | every feature a row loop creates comes from its own row, rows increase, every row with a feature is loaded |
| FeatureLoaders.CollectAll | ilwis3connector/featureconnector.cpp:275-294 | when every row gives a feature, feature i is row i's |
| FeatureLoaders.AssemblePolygon | ilwis3connector/featureconnector.cpp:86-92 | corrected: the polygon is rings[0] with holes rings[1..], the hole loop run on resized inners |
| FeatureLoaders.SetAt | ilwis3connector/featureconnector.cpp:90-91 | assigning inners()[i] is defined only inside the vector |
| FeatureLoaders.HolesFilledDefined | ilwis3connector/featureconnector.cpp:89-92 | the hole loop stays in range iff there are enough holes to write into |
| FeatureLoaders.HolesUndefinedWithoutResize | ilwis3connector/featureconnector.cpp:89-92 | as written, the hole loop is defined only for a polygon with no hole |
| FeatureLoaders.HolesAfterResize | ilwis3connector/featureconnector.cpp:89-92 | with inners resized first, the holes are rings[1..] in order |
| FeatureLoaders.PolygonFeature | ilwis3connector/featureconnector.cpp:77-104 | a row has a feature iff its area is not negative and getRings finds at least one ring; the feature is that row's polygon with the first ring as outer ring; a row whose walk runs out of steps has none |
| FeatureLoaders.LoadBinaryPolygons30 | ilwis3connector/featureconnector.cpp:57-107 | the loop over the polygon table computes Load30Spec, and reports whether some row's walk ran out of steps |
| FeatureLoaders.LoadRow30 | ilwis3connector/featureconnector.cpp:77-104 | one row computes PolygonFeature, and reports a walk that ran out of steps, which gives no feature |
| FeatureLoaders.Load30Rows | ilwis3connector/featureconnector.cpp:76-104 | every loaded feature is its own row's, rows increase, every row with a feature is loaded |
| FeatureLoaders.DeletedPolygonsSkipped | ilwis3connector/featureconnector.cpp:77-79 | a polygon with negative area gives no feature |
| FeatureLoaders.Load30PolygonsAreChains | ilwis3connector/featureconnector.cpp:80-92 | every loaded outer ring and hole is a single closed chain, deduplicated |
| FeatureLoaders.SegmentFeaturesKeepLines | ilwis3connector/featureconnector.cpp:275-294 | line i is row i's coordinates as stored, keyed by the key rule |
| FeatureLoaders.LoadBinarySegments | ilwis3connector/featureconnector.cpp:262-298 | the loop computes SegmentFeatures; a numeric map sets the table's row count to the segment count |
| FeatureLoaders.PointFeaturesKeepPoints | ilwis3connector/featureconnector.cpp:315-334 | point i is row i's point, keyed by its Name as quint32, never valued |
| FeatureLoaders.LoadBinaryPoints | ilwis3connector/featureconnector.cpp:300-336 | the loop computes PointFeatures |
| FeatureLoaders.PolygonFormatOf | ilwis3connector/featureconnector.cpp:252-260 | the indexed format iff DataPol is undefined |
| FeatureLoaders.LoadBinaryPolygons | ilwis3connector/featureconnector.cpp:252-260 | succeeds iff the chosen loader can open its files, with that loader's features |
| FeatureLoaders.LoadBinaryData | ilwis3connector/featureconnector.cpp:338-368 | the columns added; failure without the domains or for a coverage of other than exactly one type; the features of the one type's loader |
| FeatureLoaders.DetectFeatures | ilwis3connector/featureconnector.cpp:376-386 | points if Points is a number, else lines if Segments is, else polygons if Polygons is; none iff none of the three is |
| FeatureLoaders.LoadMetaData | ilwis3connector/featureconnector.cpp:370-397 | a type is set only after the coverage part loads, and then iff one is detected |
| FeatureStore.DataFileOf | ilwis3connector/featureconnector.cpp:551-555 | the data file is the name up to its last '.', the whole name without a '.' |
| FeatureStore.FileName | ilwis3connector/featureconnector.cpp:485 | the file name holds no '/' |
| FeatureStore.QtBaseName | ilwis3connector/featureconnector.cpp:485-487 | the base name holds no '.' and no '/' |
| FeatureStore.CompleteBaseName | ilwis3connector/featureconnector.cpp:551-555 | for a name without '/', completeBaseName is DataFileOf |
| FeatureStore.PathsDiffer | ilwis3connector/featureconnector.cpp:485-487 | paths differing only in the base name differ |
| FeatureStore.PolygonPathAsWrittenMissed | ilwis3connector/featureconnector.cpp:485-487 | as written, a name with a '.' before its extension is written to one polygon file and recorded under another |
| FeatureStore.TwoDotName | ilwis3connector/featureconnector.cpp:551-555 | "roads.v2.mpa" is such a name |
| FeatureStore.PolygonPathFound | ilwis3connector/featureconnector.cpp:537-538 | corrected, the polygon file written is the one DataPol names |
| FeatureStore.BaseNamesAgree | ilwis3connector/featureconnector.cpp:485-487 | for a name without '/' and without a '.' before its extension, baseName() is the data file name storeMetaData uses |
| FeatureStore.PolygonPathAsWrittenFound | ilwis3connector/featureconnector.cpp:485-487 | for such a name the polygon file as written is the one DataPol names |
| FeatureStore.BinaryBase | ilwis3connector/featureconnector.cpp:485-487 | the base of the files storeBinaryData writes, as written: the working catalog and baseName(), which gives the as-written polygon path |
| FeatureStore.StoreMetaPolygon | ilwis3connector/featureconnector.cpp:528-542 | storeMetaPolygon sets its keys, DataPol to dataFile + ".mpz#", and succeeds |
| FeatureStore.MetaPolygonReloadsAsStream | ilwis3connector/featureconnector.cpp:537-539 | a map after storeMetaPolygon reloads through the stream format, from the file it names, with the count stored |
| FeatureStore.MetaEntriesIdempotent | ilwis3connector/featureconnector.cpp:577-579 | setting the keys for the three masks leaves the same keys as once |
| FeatureStore.MetaEntriesKeepOthers | ilwis3connector/featureconnector.cpp:557-566 | keys storeMetaData does not set keep their value |
| FeatureStore.StoreMetaKeys | ilwis3connector/featureconnector.cpp:557-569 | the keys are set and stored, and the result is true |
| FeatureStore.Masks | ilwis3connector/featureconnector.cpp:577-579 | the three masks are the polygon, line and point parts of the feature types |
| FeatureStore.MetaAsWrittenNeedsAllKinds | ilwis3connector/featureconnector.cpp:544-546 | as written, storeMetaData(obj) succeeds only for a coverage of all three types |
| FeatureStore.MetaPolygonMapSucceeds | ilwis3connector/featureconnector.cpp:572-584 | corrected, a polygon map succeeds iff the base connector stores it |
| FeatureStore.StoreMetaDataFor | ilwis3connector/featureconnector.cpp:544-570 | as written, succeeds iff the mask is not empty and the base store succeeds, and then sets and stores the keys; otherwise nothing changes |
| FeatureStore.StoreMetaData | ilwis3connector/featureconnector.cpp:572-584 | as written, the and of the three calls (MetaResultAsWritten), and the keys set and stored iff one call gets past its checks |
| FeatureStore.MetaResultAsWrittenIsStricter | ilwis3connector/featureconnector.cpp:544-584 | success as written implies success of the corrected rule, and the two agree for a coverage of all three types |
| FeatureStore.MetaEntriesAgain | ilwis3connector/featureconnector.cpp:577-579 | setting the keys again over keys already set gives the same keys |
| FeatureStore.LineRecords | ilwis3connector/featureconnector.cpp:450-470 | one record per line |
| FeatureStore.LineRecordsAt | ilwis3connector/featureconnector.cpp:453-469 | record i holds line i, its envelope corners, not deleted, and raw id i + 1 |
| FeatureStore.LineRecordsSnoc | ilwis3connector/featureconnector.cpp:467-469 | one more line appends its record with the next raw id |
| FeatureStore.LinesStep | ilwis3connector/featureconnector.cpp:450-452 | one more feature adds its track of lines |
| FeatureStore.StoreLineRecords | ilwis3connector/featureconnector.cpp:432-478 | the records of every line feature, trackSize times each, raw counting from 1; nothing when the coordinate domain is not valid |
| FeatureStore.StoreLineTrack | ilwis3connector/featureconnector.cpp:452-470 | one feature adds its line's record once per track position, or nothing |
| FeatureStore.StoreLineRecord | ilwis3connector/featureconnector.cpp:453-469 | one storeRecord appends the next line's record |
| FeatureStore.StoredLinesReload | ilwis3connector/featureconnector.cpp:275-294 | the segment table written reads back as the same lines, in order, keyed by row or raw id |
| FeatureStore.StoredLineReloads | ilwis3connector/featureconnector.cpp:275-294 | line i of the segment table written reads back as line i, keyed by its row or its raw id i + 1 |
| FeatureStore.SegRowsOf | ilwis3connector/featureconnector.cpp:277-281 | loadBinarySegments reads the Coords and raw id columns of each record |
| FeatureStore.StoreBinaryDataPolygonFile | ilwis3connector/featureconnector.cpp:399-430 | succeeds iff the .mpz# file opens, and then holds the encoded features |
| FeatureStore.StoreBinaryDataLine | ilwis3connector/featureconnector.cpp:432-478 | succeeds iff the .mps# file opens and the coordinate domain is valid; the file holds the line records |
| FeatureStore.StoreBinaryDataFor | ilwis3connector/featureconnector.cpp:480-496 | empty mask succeeds writing nothing; failed base store fails; polygons go to the .mpz# file, lines to the .mps# table (empty when the coordinate domain is not valid), both under the as-written base name; points fail |
| FeatureStore.StoreBinaryData | ilwis3connector/featureconnector.cpp:498-509 | succeeds iff the coverage has no points and each of its polygons and lines has its base store succeed and its file written (lines also need a valid coordinate domain); the files are the polygon file then the line table, each present iff its type is there, its base store succeeds and its file opens; a coverage with no features succeeds writing nothing |
| FeatureStore.StoredPolygonKeys | ilwis3connector/featureconnector.cpp:544-570 | a stored polygon map is detected as polygons with the count stored, read as a stream from DataFileOf(name) + ".mpz#", with its value range kept |
| FeatureStore.StreamReloads | ilwis3connector/featureconnector.cpp:192-235 | a stream map whose file holds the records of fs loads the features of those records |
| FeatureStore.StoredPolygonMapReloads | ilwis3connector/featureconnector.cpp:399-430 | a polygon map is read from the file the corrected writer writes, and from the one the writer as written uses when the name has no second '.', and reloads as one feature per stored record |
| Raster.Width | ilwis3connector/ilwisrastercoverageconnector.cpp:113-131 | every store type is 1, 2, 4 or 8 bytes wide |
| Raster.StoreKindOf | ilwis3connector/ilwisrastercoverageconnector.cpp:113-131 | "Int", "Long", "Float", "Real" give INT16, INT32, FLOAT, DOUBLE, each iff that name; no name gives INT64 |
| Raster.ConverterChoice | ilwis3connector/ilwisrastercoverageconnector.cpp:142-161 | for a non-number domain with a defined DomainInfo, the first of "class;", "id;", "UniqueID;" found picks the converter; otherwise it stays |
| Raster.ConverterPriority | ilwis3connector/ilwisrastercoverageconnector.cpp:145-157 | "class;" wins over "id;", which wins over "UniqueID;"; none keeps the converter |
| Raster.Signed | ilwis3connector/ilwisrastercoverageconnector.cpp:219-222 | a w-byte field read as two's complement lies in the two's-complement range, -256^w/2 <= v < 256^w/2, and equals the unsigned reading n or n - 256^w |
| Raster.PixelValue | ilwis3connector/ilwisrastercoverageconnector.cpp:213-231 | value gives an integer exactly for the integral store types, and a UINT8 value lies in 0..255 |
| Raster.EncodeValue | ilwis3connector/ilwisrastercoverageconnector.cpp:213-231 | a value is stored in Width bytes |
| Raster.EncodeBlock | ilwis3connector/ilwisrastercoverageconnector.cpp:213-231 | a block holds Width bytes per pixel |
| Raster.EncodedSlot | ilwis3connector/ilwisrastercoverageconnector.cpp:215 | pixel i of a block sits at byte offset i * width |
| Raster.SignedOfEncoded | ilwis3connector/ilwisrastercoverageconnector.cpp:217-222 | a field read back gives the value written in it |
| Raster.PixelValueOfEncoded | ilwis3connector/ilwisrastercoverageconnector.cpp:213-231 | value reads back pixel i of a block written with the same store type and size |
| Raster.SumSnoc | ilwis3connector/ilwisrastercoverageconnector.cpp:260 | the total read grows by each request |
| Raster.RequestsShape | ilwis3connector/ilwisrastercoverageconnector.cpp:240-264 | ceil(total / blockBytes) requests, all a whole block but the last, which asks only for what is left, summing to the total |
| Raster.RasterConnector.constructor | ilwis3connector/ilwisrastercoverageconnector.cpp:40-42 | a new connector has store size 1 |
| Raster.RasterConnector.SetStoreType | ilwis3connector/ilwisrastercoverageconnector.cpp:113-132 | the table of store types; an unrecognised name makes bytes and leaves the size; the converter gets the store type |
| Raster.RasterConnector.SetDataType | ilwis3connector/ilwisrastercoverageconnector.cpp:134-165 | false for an invalid data definition, else true with ConverterChoice |
| Raster.RasterConnector.LoadStoreKeys | ilwis3connector/ilwisrastercoverageconnector.cpp:193-199 | a defined data file is added, and the store type is set from MapStore/Type |
| Raster.RasterConnector.Value | ilwis3connector/ilwisrastercoverageconnector.cpp:213-231 | value with the connector's store type and size: an integer exactly when that type is integral |
| Raster.RasterConnector.Conversion | ilwis3connector/ilwisrastercoverageconnector.cpp:233-268 | the reads follow Requests and count gains one per block when every block size is known; otherwise the loop stops at the first unknown block and returns 0 |
| Raster.PrefixOfRequests | ilwis3connector/ilwisrastercoverageconnector.cpp:240-264 | the requests made so far are a prefix of all of them |
| Raster.UnknownBlock | ilwis3connector/ilwisrastercoverageconnector.cpp:250-252 | a block of unknown size means not all blocks are known |
| Raster.WithHashSuffix | ilwis3connector/ilwisrastercoverageconnector.cpp:290-292 | the path ends in '#': unchanged if it did, '#' appended otherwise |
| Raster.WithHashSuffixIdempotent | ilwis3connector/ilwisrastercoverageconnector.cpp:290-292 | the suffix rule twice is the rule once |
| Raster.MapStoreTypeName | ilwis3connector/ilwisrastercoverageconnector.cpp:510-533 | numeric: "Byte" for delta in [0,256) with 0 digits, else by the raw store type; thematic "Byte", named "Int" |
| Raster.MapStoreTypeRoundTrip | ilwis3connector/ilwisrastercoverageconnector.cpp:510-526 | the store type written reads back through setStoreType as UINT8 for a small whole delta, else as the raw store type, and with its width except for bytes |
| Raster.ItemMapStoreTypeRoundTrip | ilwis3connector/ilwisrastercoverageconnector.cpp:527-533 | a thematic map reads back as bytes, a named map as INT16 |
| CoordSys.PrjParamName | ilwis3connector/coordinatesystemconnector.cpp:156-197 | every listed parameter has an ILWIS name of at least four characters, so never sUNDEF; the ellipsoid code and unlisted parameters give sUNDEF |
| CoordSys.LoadedKeysAreTableNames | ilwis3connector/coordinatesystemconnector.cpp:266-296 | the ten keys getProjection reads are the names prjParam2IlwisName gives their parameters |
| CoordSys.EffectiveType | ilwis3connector/coordinatesystemconnector.cpp:115-119 | a defined type is kept; a missing one reads "Projection" iff the Projection value is not empty |
| CoordSys.MissingKeysReadAsProjection | ilwis3connector/coordinatesystemconnector.cpp:115-119 | a file without type and projection keys reads as "Projection" |
| CoordSys.CanUse | ilwis3connector/coordinatesystemconnector.cpp:105-129 | a type sharing a bit with itCOORDSYSTEM is accepted; otherwise an existing file must be LatLon or Projection for the conventional type, BoundsOnly for the bounds-only type |
| CoordSys.CanUseIsBitTest | ilwis3connector/coordinatesystemconnector.cpp:105-129 | when the conventional and bounds-only masks are non-zero parts of itCOORDSYSTEM, canUse is the bit test alone |
| CoordSys.CoordBounds | ilwis3connector/coordinatesystemconnector.cpp:63-83 | a box iff 4 parts, the first not "-1e+308", all parsing; an error iff one fails; the whole globe iff the bounds are unused and the type is LatLon |
| CoordSys.Padded | ilwis3connector/coordinatesystemconnector.cpp:316-320 | a field of width w: a shorter text is right-aligned with leading spaces to exactly w characters, a longer one is kept as it is |
| CoordSys.SplitPadded | ilwis3connector/coordinatesystemconnector.cpp:63-64 | splitting a padded field followed by a space gives one empty part per padding space, then the text's own part, then the parts of the rest |
| CoordSys.SplitPaddedLast | ilwis3connector/coordinatesystemconnector.cpp:63-64 | splitting a padded field alone gives one empty part per padding space and the text |
| CoordSys.BoundsTextParts | ilwis3connector/coordinatesystemconnector.cpp:63-64 | the CoordBounds text written splits on ' ' into 4 parts plus one per padding space of the four corners |
| CoordSys.ShortCornerDropsBounds | ilwis3connector/coordinatesystemconnector.cpp:63-83 | as written: when some corner's text is shorter than 10 characters, the stored bounds read back as no box: the whole globe for LatLon, no bounds otherwise |
| CoordSys.ZeroCornerDropsBounds | ilwis3connector/coordinatesystemconnector.cpp:316-320 | as written: a box whose minimum x is written "0.000000" (the box (0,0)-(100,100)) does not read back as a box |
| CoordSys.StoredBoundsReload | ilwis3connector/coordinatesystemconnector.cpp:316-320 | as written: when every corner's text fills the 10-character field, holds no space and parses, the stored bounds read back as the box of the parsed corners |
| CoordSys.StoredBoundsReloadCorrected | ilwis3connector/coordinatesystemconnector.cpp:316-320 | corrected (field width 0): the four corner texts separated by single spaces read back as the box of the parsed corners, whatever their length |
| CoordSys.DatumName | ilwis3connector/coordinatesystemconnector.cpp:199-206 | none for an undefined datum; the datum, plus "." and the area when the area is defined and not empty |
| CoordSys.DatumNameSplits | ilwis3connector/coordinatesystemconnector.cpp:204-206 | a datum without '.' splits back into datum and area at the first '.' |
| CoordSys.Ellipsoid | ilwis3connector/coordinatesystemconnector.cpp:131-154 | "?" gives none; "User Defined" gives the a and 1/f values; a code is never sUNDEF |
| CoordSys.StoredEllipsoidReloads | ilwis3connector/coordinatesystemconnector.cpp:322-330 | a user-defined ellipsoid written reads back with the same values |
| PgConnection.PrepareOutcome | postgresqlconnector/postgresqlconnection.cpp:68-73 | prepared iff host and schema are both non-empty, failed otherwise |
| PgConnection.PortPart | postgresqlconnector/postgresqlconnection.cpp:30-31 | ":" and the port, nothing iff the port is 0 |
| PgConnection.PathPart | postgresqlconnector/postgresqlconnection.cpp:32-37 | "/" and the name, nothing iff the name is empty |
| PgConnection.CredentialsPart | postgresqlconnector/postgresqlconnection.cpp:43-45 | corrected, the credentials suffix, present iff both user name and password are, holding the two names as given |
| PgConnection.TablePartAsWritten | postgresqlconnector/postgresqlconnection.cpp:39-41 | "/%1" filled with the table is "/" and the table, nothing for no table |
| PgConnection.UrlRepeatsPath | postgresqlconnector/postgresqlconnection.cpp:32-38 | corrected, with database and schema, the path names them twice |
| PgConnection.UrlCredentials | postgresqlconnector/postgresqlconnection.cpp:39-45 | corrected, the credentials end the URL when both are given; otherwise, with no '?' in host, database, schema or table, the URL holds no '?' |
| PgConnection.RepeatedPathPlain | postgresqlconnector/postgresqlconnection.cpp:38 | as written, with no '%' in the database name, the chained args give "/database/schema" |
| PgConnection.CredentialsPlain | postgresqlconnector/postgresqlconnection.cpp:43-45 | as written, with no '%' in the user name, the chained args give the intended credentials |
| PgConnection.UrlAsWrittenAgrees | postgresqlconnector/postgresqlconnection.cpp:29-45 | the URL as written is the intended one when neither the database nor the user name holds a '%' |
| PgConnection.RepeatedPathResubstitutes | postgresqlconnector/postgresqlconnection.cpp:38 | as written, database "%1" gives "/schema/%2": the second arg fills the marker the first inserted |
| PgConnection.RepeatedPathDiffers | postgresqlconnector/postgresqlconnection.cpp:38 | as written, database "%1" and a schema not starting with '%' give a path other than "/database/schema" |
| PgConnection.CredentialsResubstitute | postgresqlconnector/postgresqlconnection.cpp:44 | as written, user name "%1" gives "?username=password&password=%2" |
| PgConnection.CredentialsDiffer | postgresqlconnector/postgresqlconnection.cpp:44 | as written, user name "%1" and a password not starting with '%' give credentials other than the intended ones |
| PgConnection.BuildUrl | postgresqlconnector/postgresqlconnection.cpp:29-45 | the successive appends and chained args build the URL as written, which is ConnectionUrl when neither the database nor the user name holds a '%' |
| PgConnection.Append | postgresqlconnector/postgresqlconnection.cpp:30-45 | one conditional append adds the part or nothing |
| PgConnection.PostgresqlConnection.constructor | postgresqlconnector/postgresqlconnection.cpp:18-21 | a new operation is not prepared and has no output |
| PgConnection.PostgresqlConnection.Prepare | postgresqlconnector/postgresqlconnection.cpp:59-74 | prepare copies the seven inputs into the fields and returns PrepareOutcome |
| PgConnection.PostgresqlConnection.Execute | postgresqlconnector/postgresqlconnection.cpp:23-52 | a not yet prepared operation is prepared first and stops when that fails; otherwise the output is the URL of the fields as written, the intended ConnectionUrl when neither the database nor the user name holds a '%' |
| Text.Trimmed | ilwis3connector/featureconnector.cpp:378-384 | the text toInt reads is no longer than the value, neither starts nor ends with white space, and is the value itself when it holds none |
| Text.ToInt | ilwis3connector/featureconnector.cpp:378-384 | toInt gives a number only for a non-empty value, and then one in the 32-bit range |
| Text.ToIntSkipsSpace | ilwis3connector/featureconnector.cpp:378-384 | white space added before or after a value does not change the number toInt reads |
| Text.ToIntOfNatToString | ilwis3connector/featureconnector.cpp:378-384 | a count written in decimal reads back with toInt |
| Text.MarkerAt | postgresqlconnector/postgresqlconnection.cpp:38 | a place marker is '%', an optional 'L' and one or two digits, numbered below 100; text not starting with '%' has none |
| Text.Arg | postgresqlconnector/postgresqlconnection.cpp:38 | QString::arg leaves text without a place marker unchanged |
| Text.PlainPrefix | postgresqlconnector/postgresqlconnection.cpp:38 | text without '%' in front of the markers changes neither which marker is lowest nor what is filled, and is copied unchanged |
| Text.FirstArgOfTwo | postgresqlconnector/postgresqlconnection.cpp:38 | the first arg on "p%1q%2" fills %1 and leaves %2 |
| Text.SecondArg | postgresqlconnector/postgresqlconnection.cpp:38 | an arg on text whose only marker is %2 fills it |
| Text.OnlyArg | postgresqlconnector/postgresqlconnection.cpp:40 | an arg on "p%1" fills it |
| Text.ChainedArgs | postgresqlconnector/postgresqlconnection.cpp:38 | two chained args on "p%1q%2" give p, the first argument, q and the second, when the first argument holds no '%' |
| Text.ChainedArgsRefill | postgresqlconnector/postgresqlconnection.cpp:38 | when the first argument is "%1", two chained args give p, the second argument, q and "%2" |
| PgConnection.ExecuteRejects | postgresqlconnector/postgresqlconnection.cpp:25-27 | a first execute without host or schema reports failure |
| PgTable.Classify | postgresqlconnector/postgresqltableloader.cpp:125-148 | varchar/text/char text; timestamp* time; float* value; int* integer; bool boolean; geometry skipped; anything else unknown |
| PgTable.Table.constructor | postgresqlconnector/postgresqltableloader.cpp:82-86 | a table starts with its columns and no records |
| PgTable.Table.AddColumnDef | postgresqlconnector/postgresqltableloader.cpp:151 | addColumn appends one column and keeps the records |
| PgTable.Table.SetRecord | postgresqlconnector/postgresqltableloader.cpp:109 | record(n, values) sets row n only |
| PgTable.ColumnOf | postgresqlconnector/postgresqltableloader.cpp:121-152 | a column iff the type is known, read-only iff its name is a primary key |
| PgTable.CreateColumnDefinition | postgresqlconnector/postgresqltableloader.cpp:114-153 | refuses an invalid row or unknown type; adds the column of a known type; accepts geometry with no column |
| PgTable.AddedColumns | postgresqlconnector/postgresqltableloader.cpp:56-65 | at most one column per row, each some row's column, read-only iff a primary key |
| PgTable.KnownTypesAdded | postgresqlconnector/postgresqltableloader.cpp:56-65 | every row of a known type gives its column |
| PgTable.AddedStep | postgresqlconnector/postgresqltableloader.cpp:56-58 | one more row adds its column, if it has one |
| PgTable.LoadMetadata | postgresqlconnector/postgresqltableloader.cpp:56-66 | the loop appends AddedColumns and keeps the records |
| PgTable.Padded | postgresqlconnector/postgresqltableloader.cpp:87-90 | each column name between spaces |
| PgTable.ColumnList | postgresqlconnector/postgresqltableloader.cpp:86-91 | " name ," per column without the last character: the padded names joined by ',' |
| PgTable.ColumnListSplits | postgresqlconnector/postgresqltableloader.cpp:86-91 | names without commas read back from the list |
| PgTable.CellOf | postgresqlconnector/postgresqltableloader.cpp:100-107 | empty for an invalid domain, else the query's value under the column name |
| PgTable.RecordOf | postgresqlconnector/postgresqltableloader.cpp:98-108 | one cell per column |
| PgTable.BuildRecord | postgresqlconnector/postgresqltableloader.cpp:98-108 | the inner loop computes RecordOf |
| PgTable.LoadData | postgresqlconnector/postgresqltableloader.cpp:82-112 | the statement, and the record of result row k written at row k, other rows kept; always true |
| PgFeature.SelectItems | postgresqlconnector/postgresqlfeaturecoverageloader.cpp:86-90 | one " ST_AsText(c) AS c" item per column, in order |
| PgFeature.SelectGeometries | postgresqlconnector/postgresqlfeaturecoverageloader.cpp:83-100 | "SELECT " + the items joined by ',' + " FROM " + the table |
| PgFeature.SelectItemsSplit | postgresqlconnector/postgresqlfeaturecoverageloader.cpp:86-91 | column names without commas read back from the items |
| PgFeature.FirstIndex | postgresqlconnector/postgresqlfeaturecoverageloader.cpp:137-144 | the order of the first item named so, none iff there is none |
| PgFeature.FindItem | postgresqlconnector/postgresqlfeaturecoverageloader.cpp:137-144 | the search loop computes FirstIndex |
| PgFeature.SlotOf | postgresqlconnector/postgresqlfeaturecoverageloader.cpp:132-145 | column k's slot is k without semantics, else the first matching item's order |
| PgFeature.Put | postgresqlconnector/postgresqlfeaturecoverageloader.cpp:134-141 | a write keeps the array's size |
| PgFeature.PutAt | postgresqlconnector/postgresqlfeaturecoverageloader.cpp:134-141 | the slot written holds the geometry, others unchanged |
| PgFeature.SlotsAfter | postgresqlconnector/postgresqlfeaturecoverageloader.cpp:128-146 | one slot per column |
| PgFeature.FillSlots | postgresqlconnector/postgresqlfeaturecoverageloader.cpp:125-146 | the column loop computes SlotsAfter |
| PgFeature.SlotsInColumnOrder | postgresqlconnector/postgresqlfeaturecoverageloader.cpp:132-134 | without semantics the first k columns fill slots 0..k-1 in order |
| PgFeature.SlotOfNamedItem | postgresqlconnector/postgresqlfeaturecoverageloader.cpp:136-144 | with semantics a column named like item s has its geometry in slot s |
| PgFeature.RowCalls | postgresqlconnector/postgresqlfeaturecoverageloader.cpp:150-155 | one call per column |
| PgFeature.RowCallsAt | postgresqlconnector/postgresqlfeaturecoverageloader.cpp:150-155 | slot 0 makes the feature, call i the sub-feature of column i with slot i |
| PgFeature.EmitFeatures | postgresqlconnector/postgresqlfeaturecoverageloader.cpp:150-155 | the feature loop computes RowCalls |
| PgFeature.LoadRow | postgresqlconnector/postgresqlfeaturecoverageloader.cpp:125-156 | one row's calls |
| PgFeature.LoadFeatures | postgresqlconnector/postgresqlfeaturecoverageloader.cpp:123-158 | the row loop computes the calls of every row in order |
| PgFeature.RowWithoutSemantics | postgresqlconnector/postgresqlfeaturecoverageloader.cpp:132-155 | without semantics: feature of column 0, then the sub-feature of each column in order |
| PgFeature.NextLevel | postgresqlconnector/postgresqlfeaturecoverageloader.cpp:222-233 | one more without semantics; the first matching item's order with semantics; unchanged if none matches |
| PgFeature.CountCalls | postgresqlconnector/postgresqlfeaturecoverageloader.cpp:235-241 | at most one count per column, each positive |
| PgFeature.SetFeatureCount | postgresqlconnector/postgresqlfeaturecoverageloader.cpp:202-242 | the column loop computes CountCalls |
| PgFeature.LevelsInColumnOrder | postgresqlconnector/postgresqlfeaturecoverageloader.cpp:202-233 | without semantics column k is level k |
| PgFeature.CountOfColumn | postgresqlconnector/postgresqlfeaturecoverageloader.cpp:235-241 | a positive count of column k is set with its type, count and level k |
| PgFeature.FirstCrs | postgresqlconnector/postgresqlfeaturecoverageloader.cpp:282-288 | the first valid system; none iff no column has one |
| PgFeature.EmptyExtentsIgnored | postgresqlconnector/postgresqlfeaturecoverageloader.cpp:271-280 | empty or missing extents leave the default envelope |
| PgFeature.SetSpatialMetadata | postgresqlconnector/postgresqlfeaturecoverageloader.cpp:246-294 | nothing set iff there is no column, else the first valid system and the joined extents |
| Gdal.Patterns | gdalconnector/gdalcatalogexplorer.cpp:49-51 | one "*." + ext per extension, in order |
| Gdal.RawFiltersCover | gdalconnector/gdalcatalogexplorer.cpp:48-52 | every extension of every format gives a filter |
| Gdal.RawFiltersFrom | gdalconnector/gdalcatalogexplorer.cpp:48-52 | every filter comes from an extension of a format |
| Gdal.RemoveFirst | gdalconnector/gdalcatalogexplorer.cpp:53 | removeOne drops one occurrence, if any: the multiset minus that element |
| Gdal.RemoveFirstAt | gdalconnector/gdalcatalogexplorer.cpp:53 | it is the first occurrence that goes |
| Gdal.RemoveOne | gdalconnector/gdalcatalogexplorer.cpp:53 | the loop computes RemoveFirst |
| Gdal.Distinct | gdalconnector/gdalcatalogexplorer.cpp:54 | removeDuplicates keeps the same members, pairwise distinct |
| Gdal.RemoveDuplicates | gdalconnector/gdalcatalogexplorer.cpp:54 | the loop computes Distinct |
| Gdal.RemoveThenDistinct | gdalconnector/gdalcatalogexplorer.cpp:53-54 | the element removed stays iff it occurred twice; others stay iff present |
| Gdal.HdrOnlyWhenRepeated | gdalconnector/gdalcatalogexplorer.cpp:46-54 | "*.hdr" is a filter iff two extensions give it; other filters kept; no duplicates |
| Gdal.AddPatterns | gdalconnector/gdalcatalogexplorer.cpp:49-51 | the extension loop appends Patterns |
| Gdal.CollectFilters | gdalconnector/gdalcatalogexplorer.cpp:48-52 | the format loop computes RawFilters |
| Gdal.RawFiltersSnoc | gdalconnector/gdalcatalogexplorer.cpp:48-52 | one more format adds its patterns |
| Gdal.BuildFilters | gdalconnector/gdalcatalogexplorer.cpp:46-54 | the filters are Filters |
| Gdal.ExtendedTypeIsUnion | gdalconnector/gdalcatalogexplorer.cpp:106-113 | a bit is set iff itUNKNOWN has it or a format keyed by the extension does; no such format gives itUNKNOWN |
| Gdal.ExtendedTypeOf | gdalconnector/gdalcatalogexplorer.cpp:106-113 | the loop computes ExtendedType |
| Gdal.LocalFile | gdalconnector/gdalcatalogexplorer.cpp:138-141 | the path of a file URL, empty for any other |
| Gdal.CanUse | gdalconnector/gdalcatalogexplorer.cpp:115-126 | usable iff the type is itCATALOG, the scheme "file" and the path a directory |
| Gdal.Unregistered | gdalconnector/gdalcatalogexplorer.cpp:65 | the URLs kept are exactly those registered as neither raster nor feature |
| Gdal.RegisteredSkipped | gdalconnector/gdalcatalogexplorer.cpp:64-85 | registered URLs contribute nothing |
| Gdal.FolderIsExplorable | gdalconnector/gdalcatalogexplorer.cpp:76-82 | an unregistered folder gives one catalog resource that canUse accepts |
| Gdal.LoadUrl | gdalconnector/gdalcatalogexplorer.cpp:65-83 | one URL's resources: none if registered or missing, GDAL items for a file, a named catalog for a folder |
| Gdal.PushAll | gdalconnector/gdalcatalogexplorer.cpp:73-75 | appends every item in order |
| Gdal.LoadItems | gdalconnector/gdalcatalogexplorer.cpp:44-104 | the filters, and the output: empty when GDAL is not valid, else the resources of every URL in order |

## Left out

- File and stream I/O are left out. Files are byte sequences, and open
  or exists checks are parameters (`MapFiles`, `Environment`, `FileInfo`).
- Floating-point arithmetic is left out. A double is kept as its eight
  bytes and compared bitwise, so NaN and -0.0 compare differently from
  C++ `==`. The float and double pixel values of `value` and
  `raw2real` are not modelled.
- External collaborators are parameters or results. These include
  `newFeature`/`createSubFeature`, `tbl->cell`, `setFeatureCount`,
  `Grid::setBlock`, `mastercatalog`, the SQL queries, GEOS WKT parsing,
  `Envelope` parsing and joining, domain and ellipsoid `prepare`,
  `name2Code`, `loadFolders`, `GDALItems`, `DataFormat::getSelectedBy`,
  `QFileInfo`, and the base `CoverageConnector` steps.
- The `Locker` mutex guards are left out. They only serialise access.
- The pythonapi, wfsconnector and streamconnector directories and the
  headers are left out. So are `gdalconnector/coordinatesystemconnector.cpp`,
  `storeMetaDataMapList` and `getGrfName`.
- Rings.GetRings: the walk carries a step bound (`fuel`), and
  `OutOfSteps` stands for a walk the C++ loop would continue.
- Rings.GetRings: chains hold 3-D `Coordinate`s in C++ and are compared
  with z included, also against the default `crdOld` of the duplicate
  filter. The model's coordinates are 2-D (x and y), so z is taken to
  play no part in these comparisons.
- Rings.IsForwardStartDirection: an end of an empty chain matches
  nothing. C++ leaves `front()`/`back()` of an empty vector undefined.
- Rings.StepBuffer: the same rule covers the ring buffer, which starts
  empty. On the first open chain of every walk the C++ compares with
  `ring.back()` and `ring.front()` of an empty vector, which is
  undefined; the model takes those comparisons to fail, so the chain
  only replaces the buffer when it closes.
- FeatureLoaders.LoadRow30: a walk that runs out of the step bound gives
  no feature, where the C++ loop never returns. The row reports it
  (`stalled`), and Rings.GetRingsFuelMonotone shows that any larger
  bound gives the same result for a walk that ends.
- FeatureLoaders.LoadBinaryPolygons: the `stalled` report of
  loadBinaryPolygons30 is not passed on; the loader's result is the
  features of the rows whose walks end.
- Text.Arg: place markers follow Qt 5 (`%`, an optional `L`, one or two
  ASCII digits); other Unicode digits, field widths and fill characters
  are not modelled.
- Text.Trimmed: white space is the six ASCII white space characters;
  the other Unicode spaces QChar::isSpace accepts are not modelled.
- PolygonStream.ReadRingSpec: a count read short, and coordinates past
  the end of the data, read as zero bytes. C++ leaves the count
  uninitialised.
- PolygonStream.ReadPolygon: likewise, a value or hole count read short
  reads as zero bytes.
- PolygonStream.EncodeCoordsLayout: stated only below the 32-bit
  wrap-round of the byte count. `EncodeCoords` models the wrapped prefix.
  Writing from `&crds[0]` of an empty vector is undefined in C++ and
  is modelled as writing nothing.
- PolygonStream.StoreFeature: the geometry type is checked once per
  feature rather than once per track position. The result is the same.
- PolygonRoundTrip.StoreThenLoad: the polygon count the loader uses is
  taken to be the number of records written. The coverage's feature
  count is not modelled.
- FeatureStore.StoredPolygonMapReloads: the working catalog's
  `location()` and `filesystemLocation()` are taken to be the same
  directory.
- Float64.TruncToUInt32: conversions that C++ leaves undefined (NaN,
  infinities, out of range) yield 0.
- Raster.RasterConnector.Conversion: requires the first block's byte
  count `blockSizeBytes` to be positive. With a block size of 0 the C++
  loop (ilwisrastercoverageconnector.cpp:240-264) never shrinks `szLeft`
  and runs until it meets a block whose size is unknown, or forever.
- Raster.RasterConnector.Conversion: the `-1` result of `file.read` is
  not modelled. The read gets whatever bytes are left, and the qint64
  products are unbounded.
- Raster.RasterConnector.constructor: `_storetype` is uninitialised in
  C++. The model starts it as UINT8.
- CoordSys.PrjParamName: the names are not proved pairwise distinct.
- CoordSys.BoundsText: the four chained `arg(x, 10, 'f')` calls are
  taken to fill `%1` to `%4` in turn (the fixed texts hold no '%'); the
  six-decimal 'f' text of a double is a parameter, since floating-point
  formatting is left out.
- CoordSys.StoredEllipsoidReloads: covers the LatLon branch
  (coordinatesystemconnector.cpp:322-330), which writes 1/flattening
  under "1/f". The projected branch (lines 343-345) writes
  `flattening()` itself under "1/f", so a reload there would read the
  flattening as its inverse; that branch is not modelled.
- CoordSys.CanUse: the IlwisTypes bit masks are parameters. Their
  numeric values live in a header that is not part of this model.
- Gdal.ExtendedTypeIsUnion: IlwisTypes are modelled as sets of bit
  positions (OR is union). The formats multimap is a sequence in its
  iteration order.
- Gdal.LoadItems: `gdalitems` is never filled by the code, so the
  output is the folder resources alone. The `addItems` calls are not
  modelled.
- PgFeature.FillSlots: a semantics item order at or beyond the number
  of columns writes outside the C++ stack array. The model drops that
  write, and an unassigned slot is None where C++ leaves it
  uninitialised.
- PgFeature.SetFeatureCount: the count query's result is given as a
  number. `toInt` failures are not modelled.
- PgTable.LoadData: QVariant values are an opaque type parameter.

## Findings

| source | as written | input that shows it | evidently intended | confidence | as-written member | corrected member |
|---|---|---|---|---|---|---|
| ilwis3connector/featureconnector.cpp:89-92 | holes are copied to `inners()[j-1]` of a fresh polygon whose `inners()` was never resized | an indexed polygon with two rings (one hole) | `inners()` resized to `rings.size() - 1`, holes equal to `rings[1..]` | not executed | FeatureLoaders.HolesUndefinedWithoutResize | FeatureLoaders.HolesAfterResize |
| ilwis3connector/featureconnector.cpp:544-546 | `storeMetaData(fcov, 0)` returns false, and `storeMetaData(obj)` ands the results for all three type masks | a coverage holding only polygons | an empty mask is nothing to store and succeeds | not executed | FeatureStore.MetaAsWrittenNeedsAllKinds | FeatureStore.MetaPolygonMapSucceeds |
| postgresqlconnector/postgresqlconnection.cpp:38 | the repeated path is built by `QString("/%1/%2").arg(_database).arg(_schema)`; the second arg fills the lowest marker, which may be one the database name brought in | database "%1", schema "s": "/s/%2" | "/%1/s", the two names as given | not executed | PgConnection.RepeatedPathDiffers | PgConnection.UrlRepeatsPath |
| postgresqlconnector/postgresqlconnection.cpp:44 | the credentials are built by chained args in the same way | user name "%1", password "p": "?username=p&password=%2" | "?username=%1&password=p" | not executed | PgConnection.CredentialsDiffer | PgConnection.UrlCredentials |
| ilwis3connector/featureconnector.cpp:485-487 | the polygon file and the line table are named from `baseName()`, up to the first '.', while DataPol and storeMetaData's data file are named up to the last '.' | a coverage named "roads.v2.mpa": dir/roads.mpz# written, dir/roads.v2.mpz# recorded | both names cut at the last '.' | not executed | FeatureStore.PolygonPathAsWrittenMissed | FeatureStore.PolygonPathFound |
| ilwis3connector/coordinatesystemconnector.cpp:316-320 | each corner is written with `arg(x, 10, 'f')`, right-aligned in 10 characters with spaces, while loadMetaData (lines 63-65) splits on single spaces and needs exactly 4 parts | the box (0,0)-(100,100), stored as "  0.000000   0.000000 100.000000 100.000000" | the four corner texts separated by single spaces (field width 0), read back as the same box | not executed | CoordSys.ZeroCornerDropsBounds | CoordSys.StoredBoundsReloadCorrected |
