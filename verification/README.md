# A verified model of the QR codec and of cJSON

The repository carries both halves of a QR codec, an encoder in C (`src/qrcodegen.c`) and a decoder in JavaScript
(`www/js/jsqr.js`), two separate programs, and a JSON parser and printer in C (`src/cJSON.c`). This project models
the two codecs statement by statement in Dafny and proves that each undoes the other.

Code that updates state is modelled by methods over arrays, classes and loops (the packed grid, the bit stream, the bit
matrix, the print buffer, the parse buffer, linked JSON items). Each method is proved against a function or predicate
that says what it computes, and the properties below are lemmas about those. Bytes are integers from 0 to 255; XOR, AND,
OR and shifts are functions on natural numbers; 32-bit results are cut where the source cuts them.

## Main results

**Reed-Solomon.** `Repair.DecodeRepairs`: the decoder returns the codeword for every received block of at most 255 bytes
with at most floor(twoS/2) wrong bytes. Behind it stand the field laws, the key equation, Forney's formula, and the proof
that Euclid's loop finds exactly the error locator and evaluator (`Euclid.RunRecovers`). `Radius.DecodesExactly`: the
decoder returns no other codewords than those within that radius. `RsEncoder.EncodedIsCodeword`:
what the encoder's shift register appends makes a codeword for data of any length.

**Blocks and modules.** `Interleaver.Deinterleaves`, `Zigzag.ScansAgree`, `Placement.DrawnReadsBack`,
`Symbol.CodecReadsBack` and `Symbol.DamagedCodewordsDecode` take the codewords through interleaving, placement and
masking and back, for every block shape, function mask and mask number. Where the two sides share a definition, it is
also fixed by itself: the order of the slots (`Blocks.SlotOrder`), the walk in closed form (`Zigzag.WalkAt`), the masks
by their pictures (`MaskPictures.InvertsAsShown`).

**Text.** `TextRoundTrip.PaddedReadsBack` covers mode, count, payload, terminator, alignment and pad bytes.
`EndToEnd.TextRecovered` and `TextEncoder.TextSurvives` join all stages, from the text given to the encoder to the bytes
returned by the decoder: from any picture of the symbol with at most three wrong modules in each copy of version and
format bits, and wrong bytes at most half the check bytes in each block of the codewords read, the decoder returns the
text. Nothing about version, mask, level, alignment centres or block tables is assumed: `CodewordTables.RowsAgree`
compares the 160 entries of both sides. `MirroredPictures.MirroredTextRecovered` is the second try of the decoder: a
mirrored picture that gives nothing directly gives the text. `StandardText` fixes what is written, with literals:
character values, indicators, widths, digit and character groups, pad bytes.

**Format, version and function modules.** `FormatCode.FormatBits` and `VersionCode.VersionBits`: the words that the
encoder computes by polynomial division are exactly those listed by the decoder, at least seven and eight bits apart.
`FunctionModules.MasksAgreeExactly`: the two sides take the same modules for function modules exactly when they use the
same alignment centres; `AlignmentTable.MasksAgreeButOnce` applies that to the decoder's 40 lists.
`ModuleCount.FormulaCountsFree`: the encoder's closed formula counts exactly the free modules along the walk.
`Appearance` says what a scanner sees of every finished symbol, by distances and coordinates and without the drawing
functions: finder, timing and alignment patterns, version and format bits.

**Mask choice.** `Penalty.GetPenaltyScore` equals a declarative score; `MaskChoice.ChooseMask` leaves the base symbol
under the lowest-numbered mask of least score. `StandardPenalty.ScoreIsStandard` is that score by rules about modules at
given places, without runs and histories and with all weights as literals.

**cJSON.** `JsonSyntax` writes down the texts of RFC 8259 without the parser: `JsonSyntax.TextReads` has every such text
parsed to the value it writes, `JsonSyntax.AcceptedIsText` says that nothing without that structure is accepted, and
`JsonSpelling.SpellingReads` covers every spelling of a string. `JsonRoundTrip.PrintedParses`, the round trip of trees,
follows: what is printed is such a text, with the shortest spellings (`JsonStringRoundTrip.PrintedIsShortest`) and in the
layout of `JsonLayout`. `JsonParseString.UnescapedFits` bounds what unescaping writes; `JsonPrintValue.PrintValue` says
exactly when printing succeeds and that it appends exactly the specified text; the methods of `JsonList` edit the doubly
linked list as a sequence; `JsonCompare.ComparesExactly` says exactly what comparison decides.

## What the proofs brought to light

- The encoder's direction test (parity of the column, `src/qrcodegen.c:589`) and the decoder's toggle agree exactly for
  sizes that are 1 modulo 4. Symbols have such sizes; for the other odd sizes, 23 for instance, the two walks differ
  (`Zigzag.ScansAgree`).
- The decoder's table puts an alignment centre of version 23 at 74 (`www/js/jsqr.js:8964`), the encoder's formula at 78.
  Function masks are equal exactly when the lists of centres are (`FunctionModules.MasksAgreeExactly`), so this is the
  one version in which the two sides disagree (`AlignmentTable.MasksAgreeButOnce`). The result on flipped modules,
  `EndToEnd.DamagedTextRecovered`, excludes it.
- The decoder can return a block that is no codeword (`Radius.NoCodewordReturned`): the source compares the degrees of
  locator and evaluator nowhere. A result is a codeword exactly if the evaluator is shorter than the locator
  (`Radius.DecodedIsCodeword`), which always holds within the radius.
- Mirrored symbols are read on a second try only if the first gives nothing. For level low with mask 0, 3 or 6 and level
  high with mask 1, 4 or 7 it always gives nothing, since the format word read backwards is far from all entries
  (`MirroredPictures.NotReadDirectly`).
- The balance formula yields −1 when exactly half of the modules are dark, and only then (`Penalty.ImbalanceOfHalf`); odd
  sizes exclude that.
- Printing into a caller's buffer succeeds exactly when the text and two more bytes fit
  (`JsonPrintValue.PrintPreallocated`), one byte more than text and terminator take. The header advises five more
  (`src/cJSON.h:162`); the proof follows the code.
- The two passes of `parse_string` can disagree about which backslash starts an escape, because the second pass skips
  four characters behind `\u` whatever they are (`JsonPasses.PassesDisagree` gives a text that is accepted). They agree
  exactly when no `\u` of the first pass has a backslash among its four characters (`JsonPasses.PassesAgree`). The
  allocation is sufficient all the same.
- The number parser looks at no more than 63 characters (`JsonSyntax.LongNumberCut`). An array of one longer number, valid
  by RFC 8259, is refused (`JsonSyntax.LongItemRefused`).
- `cJSON_Compare` looks only at the first member with a key, in both directions. So an object with two different values
  under one key is not equal to its own copy (`JsonCompare.RepeatedKeyIsUnequal`); exactly the coherent values are
  (`JsonDuplicate.CopyCompares`).

## Reading guide

| files | subject |
|---|---|
| `Bits`, `GF256`, `Generator`, `Polynomials` | bits as numbers, the field of 256 elements, polynomials over it |
| `KeyEquation`, `ErrorValues`, `Euclid`, `Decoding`, `Repair`, `Radius` | mathematics of decoding, the repair theorem and its converse |
| `JsField`, `JsPoly`, `JsReedSolomon`, `RsEncoder` | the Reed-Solomon code of both programs |
| `Blocks`, `CodewordTables`, `Interleaver` | block shapes, the tables of both programs, interleaving and its undoing |
| `Grid`, `Zigzag`, `Placement`, `Masks`, `MaskPictures`, `SymbolWriter`, `SymbolReader`, `Symbol` | from codewords to modules and back |
| `Regions`, `FunctionPatterns`, `FunctionModules`, `AlignmentTable`, `ModuleCount`, `FunctionDrawing` | function modules of both programs, and what they leave free |
| `Appearance` | what every finished symbol shows |
| `BinaryDigits`, `Distances`, `FormatCode`, `VersionCode`, `FormatInformation`, `VersionInformation` | format and version words |
| `Runs`, `Penalty`, `StandardPenalty`, `MaskChoice` | the score of a symbol, by runs and by places, and the search for the mask |
| `BitStrings`, `Segments`, `DataCodewords`, `JsBitStream`, `JsDecodeData`, `TextRoundTrip`, `StandardText` | from texts to data codewords and back, and what the codewords are |
| `Encoder`, `TextEncoder`, `Decoder`, `Damage`, `EndToEnd` | the whole encoder, the whole decoder, damage between them |
| `MirroredFormats`, `MirroredPictures` | mirrored pictures and the decoder's second try |
| `JsonStrings`, `JsonUnescape`, `JsonParseString`, `JsonPasses`, `JsonPrinter`, `JsonSpelling`, `JsonStringRoundTrip` | JSON strings and their spellings |
| `JsonText`, `JsonLayout`, `JsonPrintBuffer`, `JsonPrintValue` | printed text and printer |
| `JsonGrammar`, `JsonParser`, `JsonSyntax`, `JsonRoundTrip` | grammar, parser, the texts of RFC 8259, round trip |
| `JsonList`, `JsonTree`, `JsonDuplicate`, `JsonCompare` | linked items, trees of them, copying and comparing |

`dafny verify dfyconfig.toml` checks the whole project.

## Model

| member | source | states |
|---|---|---|
| GF256.MulAddRight | src/qrcodegen.c:405-413 | the byte multiplication distributes over XOR (it is linear in its second factor; with `MulCommutes`, in both) |
| GF256.MulCommutes | src/qrcodegen.c:405-413 | the byte multiplication modulo 0x11D commutes, although the shift-and-add loop treats its factors differently |
| GF256.MulAssociates | src/qrcodegen.c:405-413 | the byte multiplication is associative |
| GF256.EighthPower | www/js/jsqr.js:132-139 | the powers of the generator begin 1, 2, and the eighth is 29: x^8 is x^4 + x^3 + x^2 + 1 |
| Generator.ExpInjective | www/js/jsqr.js:126-145 | the first 255 powers of 2 are pairwise different, so no entry of the logarithm table is overwritten by a later power |
| Generator.LogExists | www/js/jsqr.js:126-145 | every nonzero byte is one of these powers, so the logarithm table is defined on all of them |
| Generator.MulIsZero | www/js/jsqr.js:146-151 | a product is 0 exactly when a factor is 0, which justifies the special case before the table lookup |
| Generator.InverseUnique | www/js/jsqr.js:152-157 | a byte with product 1 is nonzero and is the inverse |
| RsEncoder.ReedSolomonMultiply | src/qrcodegen.c:405-413 | the encoder's eight-step loop computes the field product that the decoder computes from tables |
| JsField.GenericGF.constructor | www/js/jsqr.js:126-145 | the two loops leave `expTable[i]` = 2^i for all 256 entries and `logTable` its inverse on the nonzero bytes |
| JsField.GenericGF.Multiply | www/js/jsqr.js:146-151 | table multiplication equals the encoder's product for all pairs of bytes, zero included |
| JsField.GenericGF.InverseOf | www/js/jsqr.js:152-157 | the table entry at 255 minus the logarithm is the multiplicative inverse |
| JsField.GenericGF.LogOf | www/js/jsqr.js:169-174 | the entry is the exponent below 255 with 2^k = a |
| JsField.GenericGF.ExpOf | www/js/jsqr.js:175-177 | the entry is 2^k for all 256 indices |
| JsPoly.GenericGFPoly.Create | www/js/jsqr.js:192-217 | leading zeros are dropped: the stored coefficients are the normal form of the argument, [0] standing for zero |
| JsPoly.GenericGFPoly.Degree | www/js/jsqr.js:218-220 | the degree of the polynomial, 0 for zero |
| JsPoly.GenericGFPoly.IsZero | www/js/jsqr.js:221-223 | the leading stored coefficient is 0 exactly for the zero polynomial |
| JsPoly.GenericGFPoly.GetCoefficient | www/js/jsqr.js:224-226 | counts coefficients from the lowest power |
| JsPoly.GenericGFPoly.AddOrSubtract | www/js/jsqr.js:227-249 | the right-aligned XOR of the longer with the shorter array, and its zero shortcuts, give the polynomial sum |
| JsPoly.GenericGFPoly.Multiply | www/js/jsqr.js:250-263 | scaling by a byte, including the shortcuts for 0 and 1 |
| JsPoly.GenericGFPoly.MultiplyPoly | www/js/jsqr.js:264-280 | the two nested loops give the polynomial product |
| JsPoly.GenericGFPoly.MultiplyByMonomial | www/js/jsqr.js:281-294 | equals the product with c·x^d |
| JsPoly.GenericGFPoly.EvaluateAt | www/js/jsqr.js:295-314 | all three branches (at 0, at 1, Horner) give the value of the polynomial |
| JsPoly.BuildMonomial | www/js/jsqr.js:158-168 | builds c·x^d, zero for c = 0 |
| Polynomials.EvalTimes | www/js/jsqr.js:264-314 | the value of a product is the product of the values, for all polynomials and points |
| Polynomials.RootCount | www/js/jsqr.js:8199-8217 | a nonzero polynomial has fewer distinct roots than coefficients, the fact behind comparing the number of roots found with the degree |
| KeyEquation.KeyEquationHolds | www/js/jsqr.js:8156-8198 | for every list of errors, evaluator = locator · power sums modulo x^r |
| Euclid.DivideValue | www/js/jsqr.js:8177-8186 | the inner division loop keeps quotient · divisor + remainder unchanged |
| Euclid.LoopCongruent | www/js/jsqr.js:8162-8191 | every turn of the outer loop keeps t · S = r modulo x^twoS |
| Euclid.RunSolvesKeyEquation | www/js/jsqr.js:8156-8198 | whatever the syndromes, a non-null result satisfies sigma · S = omega modulo x^twoS, sigma(0) = 1 and 2 · deg omega < twoS |
| Euclid.RunLength | www/js/jsqr.js:8156-8198 | whatever the syndromes, the degree of a locator found is at most twoS/2 |
| Euclid.LoopDividesSolution | www/js/jsqr.js:8162-8191 | every solution of the key equation within the degree bounds is one common multiple of the pair the loop stops with |
| Euclid.RunRecovers | www/js/jsqr.js:8156-8198 | a solution whose locator has as many distinct roots as its degree, none shared with its evaluator, is exactly what the algorithm returns |
| JsReedSolomon.Divide | www/js/jsqr.js:8177-8186 | the division loop over polynomial objects computes quotient and remainder of the specification |
| JsReedSolomon.RunEuclideanAlgorithm | www/js/jsqr.js:8156-8198 | terminates for all inputs and returns exactly the specified pair, or null in exactly the specified cases (zero remainder, sigma(0) = 0) |
| Decoding.ChienMember | www/js/jsqr.js:8199-8217 | the search up to i finds exactly the inverses of the nonzero roots up to i |
| JsReedSolomon.FindErrorLocations | www/js/jsqr.js:8199-8217 | the list of inverses of roots, with the shortcut for degree 1, or null when their number is not the degree |
| ErrorValues.Forney | www/js/jsqr.js:8218-8236 | at the inverse of an error's locator the evaluator is its magnitude times the product over the other locators |
| JsReedSolomon.FindErrorMagnitudes | www/js/jsqr.js:8218-8236 | computes Forney's quotient for each location |
| JsReedSolomon.ComputeSyndromes | www/js/jsqr.js:8242-8250 | collects the values at 2^s, highest power first, and flags an error exactly when the block is no codeword |
| JsReedSolomon.ApplyCorrections | www/js/jsqr.js:8264-8271 | corrects in place at length − 1 − log, or gives up at a negative position |
| JsReedSolomon.DecodeBlock | www/js/jsqr.js:8237-8272 | the whole function equals the specification `Decode` on every non-empty block, failures included |
| Repair.SyndromesArePowerSums | www/js/jsqr.js:8241-8250 | the collected coefficients are the power sums of the errors |
| Repair.ChienIsComplete | www/js/jsqr.js:8199-8217 | for the locator of any error pattern in at most 255 bytes, the search returns exactly the error locators |
| Repair.MagnitudesAreErrors | www/js/jsqr.js:8218-8236 | for these, the computed magnitudes are the errors themselves |
| Repair.NoSilentErrors | www/js/jsqr.js:8251-8253 | at most twoS/2 errors with all power sums 0 are no errors, so an early return is right |
| Repair.EuclidFindsErrors | www/js/jsqr.js:8156-8198 | for at most twoS/2 errors the algorithm returns their locator and evaluator |
| Repair.CorrectionsRepair | www/js/jsqr.js:8264-8271 | applying the first k corrections restores exactly the first k positions |
| Repair.DecodeRepairs | www/js/jsqr.js:8237-8272 | MAIN: for every codeword of at most 255 bytes and every received block that differs in at most floor(twoS/2) positions, by any amounts, decoding returns the codeword |
| Radius.DecodesExactly | www/js/jsqr.js:8237-8272 | MAIN: a codeword of at most 255 bytes is what decoding returns if and only if the received block differs from it in at most floor(twoS/2) positions |
| Radius.DecodedIsCodeword | www/js/jsqr.js:8237-8272 | MAIN: whatever the block, a result differs from it in at most floor(twoS/2) positions and, unless the block was one already, is a codeword exactly if the evaluator found is shorter than the locator |
| Radius.MatchIffShort | www/js/jsqr.js:8218-8236 | the corrections have the syndromes of the block exactly in that case, since Forney's values fit a short evaluator only if it is the true one |
| Radius.ReturnedAsItIs | www/js/jsqr.js:8254-8271 | a block with a syndrome that is not zero, but none in the upper half, comes back unchanged |
| Radius.NoCodewordReturned | www/js/jsqr.js:8254-8271 | so a result need not be a codeword: such a block exists |
| RsEncoder.GeneratorRoots | src/qrcodegen.c:361-381 | the product of (x − 2^i), i < degree, vanishes at each 2^s, s < degree |
| RsEncoder.ReedSolomonComputeDivisor | src/qrcodegen.c:361-381 | the in-place loop leaves the low coefficients of that product, and the rest of the array alone |
| RsEncoder.ReedSolomonComputeRemainder | src/qrcodegen.c:387-399 | the shift-register loop, reading and writing parts of the same array, leaves the specified remainder and changes nothing else |
| RsEncoder.RemainderDivides | src/qrcodegen.c:387-399 | data(x) · x^degree = quotient · generator + remainder with the remainder shorter than the generator: the loop is polynomial division |
| RsEncoder.EncodedIsCodeword | src/qrcodegen.c:297-325 | data of any length followed by its remainder vanishes at 2^s for all s < degree, and the decoder returns it unchanged |
| Blocks.ShapeOfExact | src/qrcodegen.c:300-305 | block count, short-block count and short length computed from the totals cover all raw codewords and exactly the data codewords |
| Blocks.SlotInjective | src/qrcodegen.c:307-324 | no two block bytes are written to the same slot of the interleaved sequence |
| Blocks.SlotSurjective | src/qrcodegen.c:307-324 | every slot is written |
| Blocks.SlotOrder | src/qrcodegen.c:307-324 | and in which order: data before check bytes, both row by row, a row from the first block to the last, where only the long blocks, which come last, have the last data row; with the two rows above this fixes every slot |
| Interleaver.AddEccAndInterleave | src/qrcodegen.c:297-325 | every block's data and check bytes end in their slots, data and the rest of the result are unchanged |
| Interleaver.GetDataBlocks | www/js/jsqr.js:720-761 | MAIN (with `AddEccAndInterleave`): null exactly when there are too few codewords; otherwise each block is what its slots hold, although the loops only shift a queue |
| Interleaver.Deinterleaves | www/js/jsqr.js:720-761 | reading back an interleaved sequence of any shape gives each block as its data followed by its check bytes |
| Interleaver.JoinedIsData | www/js/jsqr.js:775-789 | the data parts of the blocks, joined in order, are the original data codewords |
| Grid.GetModuleBounded | src/qrcodegen.c:772-777 | reads the addressed bit of the packed grid |
| Grid.SetModuleBounded | src/qrcodegen.c:781-791 | changes that module and no other, nor the size byte |
| Zigzag.ScansAgree | src/qrcodegen.c:579-602 | the encoder's direction test by column parity and the decoder's toggle give the same walk exactly when size mod 4 is 1, which is every symbol size; for the other odd sizes they differ |
| Zigzag.FirstModuleDiffers | www/js/jsqr.js:600-630 | the reason: a walk that starts downwards and one that starts upwards differ in their first module |
| Zigzag.ScanVisitsOnce | www/js/jsqr.js:600-630 | for every odd size the walk visits every module outside column 6 exactly once, and no module of column 6 |
| Zigzag.WalkAt | src/qrcodegen.c:579-602 | the walk module by module in closed form: pairs of columns from the right edge, the right module of a row before the left one, up and down in turn, odd columns left of the timing column |
| Placement.DrawnReadsBack | www/js/jsqr.js:596-631 | for every function mask, walk without repetition and bit string: the free modules read back the bits that fitted, then light modules |
| Placement.BytesToBitsAt | src/qrcodegen.c:592 | bit i of a byte sequence is bit 7 − i mod 8 of byte i / 8 |
| Placement.DrawnKeepsFunction | src/qrcodegen.c:579-602 | drawing leaves function modules dark |
| SymbolWriter.DrawCodewords | src/qrcodegen.c:579-602 | the three nested loops draw the bits along the specified walk, and all bits when there is room |
| SymbolReader.BitMatrix.CreateEmpty | www/js/jsqr.js:89-91 | all modules light |
| SymbolReader.BitMatrix.Get | www/js/jsqr.js:92-97 | false outside the matrix |
| SymbolReader.BitMatrix.Set | www/js/jsqr.js:98-100 | changes one module |
| SymbolReader.BitMatrix.SetRegion | www/js/jsqr.js:101-107 | sets the rectangle and nothing else |
| SymbolReader.ReadCodewords | www/js/jsqr.js:596-631 | the bits of the returned codewords are the unmasked free modules along the walk, cut to whole bytes, also when the function mask has another size than the matrix |
| Masks.InvertsAgree | www/js/jsqr.js:562-571 | the decoder's eight mask functions and the encoder's eight cases invert the same modules |
| MaskPictures.InvertsAsShown | src/qrcodegen.c:618-627 | each pattern inverts what its picture in ISO/IEC 18004 shows, at every module of every symbol; the products are replaced by remainders on the way |
| Masks.ApplyMask | src/qrcodegen.c:610-633 | inverts the free modules of the pattern and keeps the rest |
| Masks.MaskedTwice | src/qrcodegen.c:280 | masking is an involution |
| Masks.MaskedKeepsFunction | src/qrcodegen.c:610-633 | function modules are never inverted |
| Symbol.DecodeBlocks | www/js/jsqr.js:762-796 | split, correct and join: equals the specification, null as soon as one block fails |
| Symbol.CodewordsReadBack | www/js/jsqr.js:596-631 | for every function mask and mask number, any grid that agrees with the drawn and masked one on the free modules reads back the codewords |
| Symbol.DamagedCodewordsDecode | www/js/jsqr.js:762-796 | MAIN: for all data, shapes with blocks of at most 255 bytes and codewords in which every block has at most half its check bytes' number of wrong bytes, splitting and decoding returns the data in order |
| Symbol.CodecReadsBack | www/js/jsqr.js:596-631 | MAIN: the whole codec on codewords: for every data sequence, block shape, function mask and mask number, interleaving, drawing and masking are undone by unmasking, reading, de-interleaving and correcting |
| FunctionPatterns.GetAlignmentPatternPositions | src/qrcodegen.c:553-562 | the downward loop stores the positions of the formula |
| FunctionPatterns.PositionsAreCentres | src/qrcodegen.c:553-562 | for all versions 2 to 40 these start with 6, end with size − 7 and are at least 5 apart, so patterns do not overlap |
| FunctionPatterns.CornersAgree | www/js/jsqr.js:580-586 | the encoder leaves out three patterns by index, the decoder by coordinates: the same three |
| FunctionPatterns.PatternsAgree | src/qrcodegen.c:421-452 | the encoder's rectangles and the decoder's regions cover the same modules |
| FunctionModules.FillRectangle | src/qrcodegen.c:566-571 | makes the rectangle dark and nothing else |
| FunctionModules.InitializeFunctionModules | src/qrcodegen.c:421-452 | marks exactly the modules of the encoder's rectangles |
| FunctionModules.BuildFunctionPatternMask | www/js/jsqr.js:572-595 | marks exactly the modules of the decoder's regions |
| FunctionModules.MasksAgreeExactly | www/js/jsqr.js:572-595 | MAIN: for every size from 21 on, every version and all lists of alignment centres from 6 to size − 7 at least 5 apart, the two function masks are equal exactly when the two lists are |
| FunctionModules.MasksAgree | www/js/jsqr.js:572-595 | so for each version the decoder's mask marks the encoder's function modules exactly when the decoder's list follows the encoder's formula |
| AlignmentTable.MasksAgreeButOnce | www/js/jsqr.js:8282-9560 | with the 40 lists of the decoder's table, the masks agree for every version but 23, and for 23 they do not |
| ModuleCount.FormulaCountsFree | src/qrcodegen.c:342-353 | MAIN: for every version the closed formula is the number of modules along the walk that the encoder's mask leaves free |
| ModuleCount.GetNumRawDataModules | src/qrcodegen.c:342-353 | computes that number, and it lies in the asserted range from 208 to 29648 |
| CodewordTables.EveryRowFills | src/qrcodegen.c:100-119 | for all versions and levels the blocks listed, of one length or of two that differ by 1, make up all codewords of the version, each of at most 255 bytes and with check bytes |
| CodewordTables.ShapeParts | src/qrcodegen.c:297-305 | so the shape computed from the encoder's tables is sound and holds exactly the data codewords |
| CodewordTables.RowsAgree | www/js/jsqr.js:8282-9588 | the 160 entries of the decoder's list describe exactly the blocks that the encoder makes |
| FunctionModules.VersionTwentyThreeDiffers | www/js/jsqr.js:8964 | with the decoder's own table for version 23 (74 instead of 78) the two masks differ |
| FunctionDrawing.DrawLightFunctionModules | src/qrcodegen.c:458-513 | the final colour of every module: timing, finder rings, alignment patterns and the bits of the computed version word over what was there, in that order; `Appearance` says by distances which colours these are |
| FunctionDrawing.AlignmentColour | src/qrcodegen.c:480-492 | alignment patterns at least 5 apart do not disturb each other: each ends as a light ring around a dark module, whatever was below |
| FunctionDrawing.LayerInside | src/qrcodegen.c:454-457 | every module that gets a colour is a function module, so the codewords are not touched |
| Appearance.FinderShown | src/qrcodegen.c:466-478 | MAIN: in every symbol that the encoder makes, masked and with format bits, the modules at the distances 0, 1 and 3 from the three finder centres are dark and those at 2 and 4 light, undisturbed by all other patterns; stated without the drawing functions |
| Appearance.TimingShown | src/qrcodegen.c:459-464 | between the separators, row and column 6 alternate, dark at even coordinates |
| Appearance.AlignmentShown | src/qrcodegen.c:480-492 | every alignment pattern is dark at the distances 0 and 2 from its centre and light at 1, also where it lies on the timing patterns |
| Appearance.VersionBitsShown | src/qrcodegen.c:494-512 | bit 3 i + j of the version word stands at its two places, with coordinates written out |
| Appearance.FormatBitsShown | src/qrcodegen.c:530-545 | bit i of the format word stands at its two places, with coordinates written out, and the module at (8, size − 8) is dark |
| Distances.NumBitsDiffering | www/js/jsqr.js:515-523 | the clear-lowest-bit loop counts the differing bits |
| FormatInformation.MatchFormat | www/js/jsqr.js:694-718 | the loop with its early exit and two running minima answers the first of the entries nearest to either word, null exactly when none is within 3 bits |
| FormatCode.FormatBits | src/qrcodegen.c:520-528 | MAIN: for each level and mask the ten-step division computes exactly the word that the decoder's table lists for that level and mask |
| FormatCode.FirstWords | src/qrcodegen.c:522-527 | the words of the four levels with mask 0, as literals: 0x77C4, 0x5412, 0x355F, 0x1689 |
| FormatCode.TableListsCode | www/js/jsqr.js:528-561 | every entry of the decoder's table is the masked code word of its five data bits, check bits by division by 0x537 |
| FormatCode.TableFarApart | www/js/jsqr.js:714-717 | any two of the 32 entries differ in at least seven bits, which the limit of three bits relies on |
| FormatInformation.DrawWord | src/qrcodegen.c:530-545 | the four drawing loops leave exactly the specified modules changed |
| FormatInformation.DrawFormatBits | src/qrcodegen.c:519-546 | computes the word of a level and a mask and draws it in both copies, with the module that is always dark |
| FormatInformation.ReadFormatBits | www/js/jsqr.js:675-693 | collects both copies in the order of the specification |
| FormatInformation.FormatReadsBack | www/js/jsqr.js:675-693 | every 15-bit word drawn on any grid reads back from both copies |
| FormatInformation.CopyDistance | www/js/jsqr.js:515-523 | the distance between the words read from two grids is the number of format modules in which they differ |
| FormatInformation.ReadFormatInformation | www/js/jsqr.js:674-719 | the same for the words read from the matrix |
| FormatInformation.NearestMatches | www/js/jsqr.js:695-718 | with entries at least 7 bits apart, an entry within 3 bits of both words is the one found |
| FormatInformation.FoundUnlessFar | www/js/jsqr.js:714-718 | nothing is found exactly when both copies differ from every entry in more than three bits |
| VersionCode.VersionBits | src/qrcodegen.c:494-501 | for each version from 7 on the twelve-step division computes exactly the word of the decoder's table |
| VersionCode.TableListsCode | www/js/jsqr.js:8429-9554 | every word of the decoder's table is the version number over its check bits by division by 0x1F25 |
| VersionCode.VersionWordsApart | www/js/jsqr.js:668-669 | the word of a version differs in at least eight bits from every other word, and from zero, as which versions without a word are compared |
| VersionInformation.MatchVersion | www/js/jsqr.js:650-672 | the search with its early exit for equal words and two running minima answers exactly the specified version, or none |
| VersionInformation.VersionMatches | www/js/jsqr.js:650-672 | a version whose word is within 3 bits of both copies is the one found |
| VersionInformation.VersionUnlessFar | www/js/jsqr.js:664-672 | nothing is found exactly when both copies differ from every entry in more than three bits |
| VersionInformation.ReadVersionBits | www/js/jsqr.js:638-649 | collects both copies in the order of the specification |
| VersionInformation.VersionReadsBack | www/js/jsqr.js:638-649 | a word shown by the modules of either copy reads back |
| VersionInformation.ReadVersion | www/js/jsqr.js:632-673 | by the size up to version 6, by the version bits from 7 on, none below size 21 |
| Runs.RunsOfExact | src/qrcodegen.c:642-663 | the declarative runs of a line are maximal, alternate in colour and spell the line |
| Runs.AddHistory | src/qrcodegen.c:742-747 | shifts the history in place, adding the light border to the first run |
| Runs.CountsPatterns | src/qrcodegen.c:718-726 | the test on the seven latest runs counts the finder-like patterns that end at the last run |
| Runs.TerminateAndCount | src/qrcodegen.c:730-738 | closes the line with a light border and counts once more |
| Runs.ScanEnd | src/qrcodegen.c:642-685 | at the end of a line the counters of the incremental scan add up to the declarative penalty |
| Penalty.ScoreLine | src/qrcodegen.c:642-685 | the scan of a row or column gives its run and pattern penalty |
| Penalty.CountSquares | src/qrcodegen.c:687-696 | counts the unicoloured 2 by 2 squares |
| Penalty.ImbalanceIsLeast | src/qrcodegen.c:706-710 | for every dark count other than exactly half, k is between 0 and 9 and is the least with (45−5k)% ≤ dark ≤ (55+5k)% |
| Penalty.ImbalanceOfHalf | src/qrcodegen.c:706-710 | the formula gives −1 exactly at half dark |
| Penalty.OddSquare | src/qrcodegen.c:706-710 | which an odd symbol size excludes |
| Penalty.GetPenaltyScore | src/qrcodegen.c:638-713 | the whole function equals the declarative score; `StandardPenalty.ScoreIsStandard` says by places what that is |
| StandardPenalty.LineIsStandard | src/qrcodegen.c:642-685 | MAIN: for every line, the points are one for every module that ends five of one colour, two for the first five of a run, and forty for every finder-like pattern, found by comparing modules at given distances, without runs and histories |
| StandardPenalty.PatternsByPlace | src/qrcodegen.c:718-738 | the patterns counted from run histories with light borders are those found by place, for modules of every width and on either side |
| StandardPenalty.ScoreIsStandard | src/qrcodegen.c:638-713 | MAIN: the score with all weights as literals: 1, 2, 40, 3 for a square of one colour, and 10 k for the least k with (45−5k)% ≤ dark ≤ (55+5k)% |
| StandardPenalty.LightGridScore | src/qrcodegen.c:638-713 | a light grid of odd size n ≥ 5 scores 2n(n−2) + 3(n−1)² + 90 |
| MaskChoice.NeighboursExclude | src/qrcodegen.c:718-726 | of two neighbouring light runs at most one ends a pattern, since the unit of one would be nine times itself |
| MaskChoice.ScoreBounded | src/qrcodegen.c:711 | for odd sizes up to 177 every score lies between 0 and 2568888, the bound of the assertion, and so below the start value of the minimum: some mask is chosen |
| MaskChoice.PaintedSame | src/qrcodegen.c:519-546 | drawing format bits forgets what the format modules were before |
| MaskChoice.TryMask | src/qrcodegen.c:271-281 | mask, format bits, score and unmask return the score of the trial and leave the grid as it was except for format modules |
| MaskChoice.ChooseMask | src/qrcodegen.c:268-285 | MAIN: the final symbol is the base under the mask asked for or, in automatic mode, under the lowest-numbered mask of least score |
| BitStrings.AppendBitsToBuffer | src/qrcodegen.c:188-192 | into zero bits, writes the value's bits at the cursor and changes no other bit |
| JsBitStream.BitStream.ReadBits | www/js/jsqr.js:1055-1090 | partial byte, whole bytes, partial byte: equals the value of the next n bits as a 32-bit result, advances by exactly n, fails exactly for n outside 1 to 32 or beyond the end, then without moving |
| TextRoundTrip.FieldsReadBack | www/js/jsqr.js:1055-1093 | any sequence of numbers appended at widths 1 to 16 reads back number by number at the same widths |
| Segments.MakeNumeric | src/qrcodegen.c:893-923 | the buffer holds groups of three digits in 10 bits and the rest in 7 or 4, and the count and bit length are right |
| Segments.MakeAlphanumeric | src/qrcodegen.c:927-957 | pairs in 11 bits, a last character in 6; the values are those of `StandardText.CharacterValues` |
| Segments.MakeBytes | src/qrcodegen.c:878-889 | the bytes themselves |
| StandardText.CharacterValues | src/qrcodegen.c:94 | the value of a character without the list: digits c − 48, capitals c − 55, then the nine signs from 36 to 44, and no other byte has one |
| TextRoundTrip.CharsetsAgree | www/js/jsqr.js:888-894 | the encoder's string and the decoder's array, listed separately, are the same 45 characters |
| StandardText.Indicators | src/qrcodegen.c:236-245 | the mode indicators are 0001, 0010 and 0100 |
| StandardText.CountWidths | src/qrcodegen.c:1013-1024 | the widths of the count fields, as literals for the three version classes, the same on both sides |
| StandardText.DigitGroups | src/qrcodegen.c:893-923 | three digits a, b, c are the number 100a + 10b + c in 10 bits, two are 10a + b in 7, one is a in 4 |
| StandardText.CharacterGroups | src/qrcodegen.c:927-957 | two characters are 45 times the first value plus the second in 11 bits, one is its value in 6 |
| Segments.BitLengthExact | src/qrcodegen.c:851-874 | the closed formula is the length of the payload, and overflow is reported exactly above 32767 |
| DataCodewords.GetTotalBits | src/qrcodegen.c:990-1008 | the loop with its two overflow exits computes the specified total |
| DataCodewords.TotalBitsExact | src/qrcodegen.c:236-245 | when it does not overflow, the total is the number of bits written |
| DataCodewords.ChooseVersion | src/qrcodegen.c:213-231 | the smallest version in the range that fits, nothing exactly when none does, and with boosting the highest level that still fits |
| DataCodewords.AlignmentFits | src/qrcodegen.c:248-255 | terminator and byte alignment never exceed a capacity in whole bytes, also when fewer than four bits remain |
| DataCodewords.WriteDataCodewords | src/qrcodegen.c:233-259 | leaves headers, payloads, terminator, alignment and alternating pad bytes, with zeros behind |
| StandardText.PaddingIs | src/qrcodegen.c:248-259 | behind the data at most four zeros, then zeros to the end of the byte, then 236 and 17 in turn, 236 first, to the capacity |
| JsDecodeData.DecodeNumeric | www/js/jsqr.js:849-887 | returns the characters of the bit-level specification and leaves the stream behind them, or fails with it |
| JsDecodeData.DecodeAlphanumeric | www/js/jsqr.js:895-914 | the same for pairs and a last single character, with the decoder's own list of characters (`TextRoundTrip.CharsetsAgree`) |
| JsDecodeData.DecodeByte | www/js/jsqr.js:915-931 | the same for bytes |
| JsDecodeData.DecodeKanji | www/js/jsqr.js:932-950 | the same for 13-bit characters, as two bytes each |
| JsDecodeData.SkipEci | www/js/jsqr.js:967-986 | reads an assignment number of 7, 14 or 21 bits and adds no bytes |
| JsDecodeData.DecodeData | www/js/jsqr.js:951-1037 | the segment loop equals the specification on every byte sequence, all modes and ends included |
| StandardText.NoDigits | www/js/jsqr.js:855-885 | a group above 999, 99 or 9 ends the decoding without a result |
| StandardText.KanjiReadsBack | www/js/jsqr.js:932-950 | every text of double-byte Shift JIS characters, numbered as ISO/IEC 18004 numbers them, decodes to its bytes, in both ranges |
| StandardText.EciSkipped | www/js/jsqr.js:967-986 | an ECI designator of one, two or three bytes is passed over, whatever its assignment number |
| TextRoundTrip.NumericReadsBack | www/js/jsqr.js:849-887 | the encoder's digit groups decode to the digits |
| TextRoundTrip.AlphanumericReadsBack | www/js/jsqr.js:895-914 | the encoder's pairs decode to the text |
| TextRoundTrip.SegmentsReadBack | www/js/jsqr.js:951-1037 | any list of segments whose lengths fit their fields decodes to the texts joined |
| TextRoundTrip.PaddedReadsBack | www/js/jsqr.js:951-1037 | MAIN: and so does the padded string, for every capacity in whole bytes that holds it, including 0 to 3 terminator bits |
| Encoder.EncodeSegmentsAdvanced | src/qrcodegen.c:207-287 | succeeds exactly when some version in range fits; then the symbol is the first such version and the right level, and every module of it is stated: the codewords of the padded data, interleaved, drawn and masked by the right mask, the function patterns with the version bits, the format bits; otherwise the size byte is 0 |
| Encoder.MakeCodewords | src/qrcodegen.c:233-262 | writes the padded data and protects it: data of the capacity of the level, each block with its check bytes |
| Encoder.DrawSymbol | src/qrcodegen.c:263-286 | from protected codewords to the finished symbol under the right mask |
| Encoder.RoomForBits | src/qrcodegen.c:576-602 | for every version the bits of all codewords find room among the free modules, as the assertion behind the drawing loops demands, and leave 0 to 7 of them |
| TextEncoder.EncodeText | src/qrcodegen.c:132-166 | the same for a text in its most compact mode: succeeds exactly when the text's bits fit a version in range, in the first such version and the right level |
| TextEncoder.ModeIsShortest | src/qrcodegen.c:140-160 | no other mode that can hold the text takes fewer bits, in any version |
| TextEncoder.IsNumeric | src/qrcodegen.c:812-819 | true exactly for texts of digits |
| TextEncoder.IsAlphanumeric | src/qrcodegen.c:823-830 | true exactly for texts of the 45 characters |
| Decoder.DecodeMatrix | www/js/jsqr.js:762-796 | version, format, codewords, blocks, correction and segments composed, also when the version found does not match the size: the specified result, null in exactly the specified cases |
| Decoder.DecodesToOne | www/js/jsqr.js:762-796 | that specification leaves nothing open: every matrix has one version and one result |
| Decoder.Mirror | www/js/jsqr.js:806-813 | the loops exchange rows and columns in place |
| Decoder.Decode | www/js/jsqr.js:797-815 | the result of the matrix, or else of its mirror image; `MirroredPictures.MirroredTextRecovered` says what the second try yields |
| MirroredFormats.BackwardsIsFar | www/js/jsqr.js:714-718 | of level low with mask 0, 3 or 6 and level high with mask 1, 4 or 7, the word read backwards, with any middle digit or a dark one, differs from all 32 entries in more than three bits |
| MirroredPictures.NotReadDirectly | www/js/jsqr.js:674-719 | so the mirror image of such a symbol, of any version, has no result by itself: what the next two rows demand can be met |
| MirroredPictures.MirroredTextRecovered | www/js/jsqr.js:797-815 | MAIN: from the mirror image of every legible and repairable picture that gives nothing directly, the decoder returns the text: the second try is made, on the picture mirrored back |
| MirroredPictures.MirroredSymbolDecodes | www/js/jsqr.js:797-815 | in particular from the mirror image of every intact symbol of those levels and masks, for every version but 23 |
| Damage.BitsDamaged | www/js/jsqr.js:596-631 | each damaged free module changes at most one bit read |
| Damage.CodewordsDamaged | www/js/jsqr.js:596-631 | and at most one codeword |
| Damage.BlockDamaged | www/js/jsqr.js:720-761 | a block has no more wrong bytes than there are wrong codewords |
| EndToEnd.VersionRecovered | www/js/jsqr.js:632-673 | from version 7 on with at most 3 damaged modules in each copy of the version bits, and always below, the version is recovered |
| EndToEnd.FormatRecovered | www/js/jsqr.js:674-719 | with at most 3 damaged modules in each format copy, level and mask are recovered |
| EndToEnd.CodewordsRecovered | www/js/jsqr.js:596-631 | no more codewords are wrong than free modules are flipped |
| EndToEnd.TextRecovered | www/js/jsqr.js:797-815 | MAIN: for every encoded list of segments and every picture of the symbol with at most 3 wrong modules in each copy of version and format bits and, in each block of the codewords read, wrong bytes at most half the check bytes, what the decoder returns is the text |
| EndToEnd.DamagedTextRecovered | www/js/jsqr.js:797-815 | in particular, for every version but 23, when the flipped free modules are at most half the check bytes of a block |
| TextEncoder.TextSurvives | www/js/jsqr.js:797-815 | the same from the text given to the encoder to the bytes returned by the decoder, with wrong bytes counted per block |
| JsonStrings.ParseHex4 | src/cJSON.c:620-653 | four hex digits of either case, 0 as soon as one is none |
| JsonUnescape.SurrogatePair | src/cJSON.c:711-712 | the OR of the two shifted halves is the sum of RFC 2781 section 2.2 |
| JsonUnescape.Utf8At | src/cJSON.c:752-767 | the bytes of the code point by its 6-bit remainders and the lead byte's marker, as in RFC 3629 section 3 |
| JsonUnescape.WriteUtf8 | src/cJSON.c:752-769 | the backward loop with its masks writes these bytes and nothing else |
| JsonUnescape.Utf16LiteralToUtf8 | src/cJSON.c:657-775 | consumes 6 or 12 bytes and writes the UTF-8 form, or fails without writing, in exactly the specified cases |
| JsonParseString.FindEnd | src/cJSON.c:791-813 | the first pass finds the closing quote and the number of skipped bytes, or fails without one |
| JsonParseString.AllocationSuffices | src/cJSON.c:791-820 | the allocation is the room that the bytes between the quotes can take |
| JsonParseString.Unescape | src/cJSON.c:824-884 | the second pass never writes outside the allocation, even where it disagrees with the first pass about which backslash starts an escape |
| JsonParseString.UnescapedFits | src/cJSON.c:815-882 | MAIN: for every input, what the second pass writes is no longer than the allocated length |
| JsonPasses.PassesAgree | src/cJSON.c:795-809 | for every accepted literal, both passes take the same backslashes for starts of escapes exactly when no backslash stands among the four bytes behind a \u of the first pass |
| JsonPasses.PassesDisagree | src/cJSON.c:826-879 | for `"\u\"ab"`, which is accepted, they do not: the first pass sees two escapes, the second one |
| JsonParseString.ParseString | src/cJSON.c:778-904 | returns the unescaped bytes and moves behind the closing quote, or fails, in exactly the specified cases; `JsonSpelling.SpellingReads` says which literals these are |
| JsonSpelling.SpellingReads | src/cJSON.c:778-904 | MAIN: every spelling of a string that RFC 8259 section 7 allows (plain bytes, the eight two-character escapes listed as literals, four hexadecimal digits of either case, surrogate pairs, UTF-8 by the table of RFC 3629) is read as the string it spells, wherever it stands |
| JsonSpelling.OtherLetterRefused | src/cJSON.c:874-875 | any other letter behind a backslash is refused, whatever stands around it |
| JsonSpelling.LoneSurrogateRefused | src/cJSON.c:676-708 | so are a low surrogate first and a high one without an escape behind it |
| JsonSpelling.Utf8IsUnique | src/cJSON.c:714-769 | the parser writes the one encoding that the table of RFC 3629 gives |
| JsonPrinter.PrintStringPtr | src/cJSON.c:907-1026 | succeeds exactly when the quoted text and 2 bytes fit, then appends exactly the quoted text and a terminator |
| JsonStringRoundTrip.QuotedReadsBack | src/cJSON.c:778-904 | MAIN: every string without zero bytes, printed anywhere in a text, parses back to itself and leaves the cursor behind its closing quote |
| JsonStringRoundTrip.PrintedIsSpelling | src/cJSON.c:955-1024 | what is printed for a string is one of its spellings |
| JsonStringRoundTrip.PrintedIsShortest | src/cJSON.c:955-1024 | and none of its spellings is shorter |
| JsonStringRoundTrip.ControlsPrinted | src/cJSON.c:1013-1017 | control characters without a letter of their own are printed as \u00 and two lower-case digits |
| JsonPrintBuffer.PrintBuffer.Ensure | src/cJSON.c:444-526 | keeps what was printed, makes room for needed + 1 bytes, and fails exactly beyond INT_MAX or a fixed buffer |
| JsonPrintBuffer.PrintBuffer.UpdateOffset | src/cJSON.c:530-540 | counting to the terminator moves the offset behind the text just printed |
| JsonPrintValue.PrintConstant | src/cJSON.c:1383-1413 | appends a fixed word, failing exactly when it and 2 bytes do not fit |
| JsonPrintValue.PrintNumber | src/cJSON.c:550-617 | appends the decimal text of a 32-bit integer |
| JsonPrintValue.PrintArray | src/cJSON.c:1544-1603 | appends the array's text with its separators, formatted or not, depth restored |
| JsonPrintValue.PrintObject | src/cJSON.c:1719-1830 | appends the object's text with indentation, tabs, commas and line ends, depth restored |
| JsonPrintValue.PrintValue | src/cJSON.c:1372-1443 | MAIN: for every tree of linked items, succeeds exactly when offset + text + 2 is within the limit, then appends exactly the specified text |
| JsonPrintValue.TextNulFree | src/cJSON.c:530-540 | the text of a tree of zero-free strings holds no zero byte, so counting to the terminator is right |
| JsonLayout.ArrayLayout | src/cJSON.c:1544-1603 | the text of an array: its items joined by a comma, or by comma and space if formatted |
| JsonLayout.ObjectLayout | src/cJSON.c:1719-1830 | the text of a formatted object: lines joined by comma and line end, each of depth + 1 tabs, key, colon, tab and value, and a closing brace behind depth tabs; unformatted no white space at all |
| JsonPrintValue.Print | src/cJSON.c:1192-1254 | returns exactly the text and its terminator, null exactly when they exceed INT_MAX |
| JsonPrintValue.PrintPreallocated | src/cJSON.c:1297-1314 | succeeds exactly when the text and 2 bytes fit the caller's buffer |
| JsonParser.SkipWhitespace | src/cJSON.c:1043-1066 | stops at the next byte above 32, at the last byte at the end, and never before where it started |
| JsonParser.ParseNumber | src/cJSON.c:305-379 | copies at most 63 number bytes and moves by what the conversion used, or fails |
| JsonParser.ParseValue | src/cJSON.c:1317-1369 | terminates, stays inside the text, and accepts exactly what the grammar accepts: a tree of linked items for the value, the cursor strictly past its start, depth restored; `true` sets the number to 1 |
| JsonParser.ParseArray | src/cJSON.c:1446-1541 | the same for arrays; the children form a doubly linked list whose head points back to the tail |
| JsonParser.ParseObject | src/cJSON.c:1606-1716 | the same for objects, with keys moved from value to name |
| JsonParser.Parse | src/cJSON.c:1100-1177 | null exactly when the text, its byte order mark skipped, is not accepted; otherwise a fresh tree for the value and where it ends |
| JsonSyntax.DocReads | src/cJSON.c:1317-1369 | every JSON value as RFC 8259 writes it (any white space, any spelling of strings, any number that the conversion reads), nested within the limit, is read as the value it writes |
| JsonSyntax.TextReads | src/cJSON.c:1100-1177 | MAIN: every JSON text of RFC 8259, with or without a byte order mark, nested at most 1000 deep, is parsed to the value it writes; numbers are cut at 2147483647 and −2147483648 |
| JsonSyntax.ValueIsText | src/cJSON.c:1317-1369 | conversely a value that is read was written as one: a document with its white space, literals and commas can be given |
| JsonSyntax.AcceptedIsText | src/cJSON.c:1100-1177 | MAIN: whatever `cJSON_Parse` accepts is such a document, with any bytes up to 32 as white space, and its value is the one returned |
| JsonSyntax.TooDeepRefused | src/cJSON.c:1452-1455 | 1001 opening brackets are refused, whatever follows |
| JsonSyntax.LongNumberCut | src/cJSON.c:305-379 | of a number of more than 63 characters only the first 63 are converted, whatever the conversion |
| JsonSyntax.LongItemRefused | src/cJSON.c:321-379 | so an array of one number of more than 63 digits, which RFC 8259 allows, is refused |
| JsonRoundTrip.NumberReadsBack | src/cJSON.c:305-379 | the decimal text of every 32-bit integer reads back |
| JsonRoundTrip.ValueReadsBack | src/cJSON.c:1317-1369 | the text of a value, at any depth and place and followed by no number byte, reads back as the value |
| JsonRoundTrip.PrintedParses | src/cJSON.c:1100-1177 | MAIN: for every tree of null, booleans, 32-bit integers, zero-free strings, arrays and objects nested at most 1000 deep, the printed text, formatted or not, parses to the same tree and is consumed to its end |
| JsonRoundTrip.DecimalReads | src/cJSON.c:350-356 | reading an optional minus and decimal digits gives back every integer that was printed |
| JsonRoundTrip.DecimalBegins | src/cJSON.c:572 | without leading zeros, plus sign or negative zero |
| JsonRoundTrip.ReadersExist | src/cJSON.c:350-356 | so what is assumed of the library's conversion can be met |
| JsonList.GetArrayItem | src/cJSON.c:1856-1873 | the child with the index, null past the end |
| JsonList.AddItemToArray | src/cJSON.c:1961-1992 | appends: the list stays well linked and is the old one with the item behind it; adding an item to itself fails |
| JsonList.DetachItemViaPointer | src/cJSON.c:2192-2226 | removes the item wherever it stands, links stay right, the item's own are null |
| JsonList.InsertItemInArray | src/cJSON.c:2268-2300 | inserts before the index or appends past the end; a negative index fails |
| JsonList.ReplaceItemViaPointer | src/cJSON.c:2302-2349 | puts the replacement in the item's place |
| JsonDuplicate.Duplicate | src/cJSON.c:2716-2797 | with recursion a fresh well-linked tree for the same value, without it a fresh leaf; the original is unchanged |
| JsonDuplicate.GetObjectItem | src/cJSON.c:1885-1915 | the first child with the name, case folded or not, null without one |
| JsonDuplicate.Compare | src/cJSON.c:2996-3119 | true for the same item, otherwise exactly the specified comparison, for all trees of all kinds |
| JsonCompare.ComparesExactly | src/cJSON.c:2996-3119 | MAIN: two values compare equal exactly when both are coherent (members with the same key mean the same) and they mean the same, objects meaning finite maps |
| JsonCompare.FoldedSame | src/cJSON.c:133-154 | keys are the same when folded exactly if they have the same length and differ at most in the case of letters from A to Z |
| JsonCompare.DistinctCompares | src/cJSON.c:2996-3119 | for values without repeated keys: exactly when they agree up to the order of members |
| JsonCompare.RepeatedKeyIsUnequal | src/cJSON.c:3078-3114 | an object with two different numbers under one key is not equal to its own copy |
| JsonDuplicate.CopyCompares | src/cJSON.c:2716-2797 | a copy compares equal to the original exactly when the value is coherent |

## Left out

- Encoder.EncodeSegmentsAdvanced: numeric, alphanumeric and byte segments; kanji and ECI segments are left out.
- EndToEnd.DamagedTextRecovered: excludes version 23, in which the function masks differ.
- MirroredPictures.MirroredSymbolDecodes: excludes version 23, in which the function masks differ.
- StandardText.KanjiReadsBack: the decoder's side only, as the encoder's kanji segments are left out.
- JsonSyntax.TextReads: numbers of at most 63 characters, since longer ones are not read whole (`JsonSyntax.LongNumberCut`); the conversion is a parameter.
- TextEncoder.EncodeText: segment data are values, so the sharing of the work buffer between segment and codewords is not modelled.
- Decoder.DecodeMatrix: the matrix is square and the lists of alignment centres are the decoder's; exceptions of the segment parser count as no result.
- JsReedSolomon.FindErrorMagnitudes: stated for generator base 0, the only one the decoder uses.
- Segments.BitLengthExact: numeric, alphanumeric and byte mode only.
- JsDecodeData.DecodeNumeric: the byte values; the text field, which holds the same characters, is left out.
- JsDecodeData.DecodeAlphanumeric: the byte values; the text field, which holds the same characters, is left out.
- JsDecodeData.DecodeByte: the byte values; the text field is the result of a library call.
- JsDecodeData.DecodeKanji: the byte values; the text field needs the Shift-JIS table.
- JsDecodeData.SkipEci: the assignment number is read and not recorded.
- JsDecodeData.DecodeData: the byte values; text field and chunk list are left out.
- JsonRoundTrip.PrintedParses: numbers are 32-bit integers, and the C library's conversion is a parameter that reads their decimal text, as `JsonRoundTrip.ReadDecimal` does.
- JsonPrinter.PrintStringPtr: a string is never null; the branch that prints two quotes for a null string is left out.
- JsonPrintValue.PrintNumber: 32-bit integers; other doubles, locales and the 15 to 17 digit printing are left out.
- JsonPrintValue.PrintValue: raw items and numbers that are no 32-bit integers are left out.
- JsonParser.ParseNumber: the conversion is a parameter, and its double value is left out.
- JsonParser.ParseValue: memory always suffices, and after a failure only the bounds of the cursor are stated, not the error position.
- JsonParser.Parse: without the demand for a terminating zero byte and without the error pointer.
- JsonDuplicate.Compare: numbers are integers, and the two trees share no items unless they are the same one.
- JsonList.AddItemToArray: the items are not null and the item stands in no other list; reference items and constant keys are left out.
- JsonList.ReplaceItemViaPointer: the items are not null, and the replaced item is not deleted.
- The image side of the decoder (binarizer, locator, extractor): floating-point geometry.
- The encoder's kanji and ECI segments, and `qrcodegen_encodeBinary`, which is the path of a byte segment.
- cJSON's allocator hooks, allocation failure, deletion, raw items, setters and `cJSON_Minify`: foreign, or easy members.
- Parsing of texts without a terminating zero byte: the repository only calls `cJSON_Parse`.
- `src/main.c`, `src/influxdb.c`, `src/routes.c`, `src/qr_svg.c`, `src/seat_manager.c`, `src/auth.c`, `src/pricing.c` and the browser pages: plumbing, or state machines with properties that follow from one branch.
