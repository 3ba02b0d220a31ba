/**
 Evaluator ids, as the codes of the wire enumerations. The Go engine names an id where the C
 engine numbers it; the table between names and numbers is one to one, so the numbers stand for
 the names too.
 */
module EvaluatorIds {

  const STR_EVAL_COUNT: nat := 56
  const NUM_EVAL_COUNT: nat := 14

  const PROCESS_EXE_FULL_PATH := 3
  const PROCESS_ARGV := 5
  const LIBC_FLAVOR := 16
  const MACHINE_ARCHITECTURE := 18
  const OS := 21
  const ALWAYS_TRUE := 31
  const ALWAYS_FALSE := 32
  const ALWAYS_ABSTAIN := 33
  const PROCESS_ARGV_0 := 35
  const PROCESS_ARGV_N := 41
  const PROCESS_ENVAR := 47
  const CONTAINER_LABEL := 51
  const NAMESPACE_LABEL := 53
  const POD_LABEL := 54
  const POD_ANNOTATION := 55

  const LIBC_VERSION_MAJOR := 11
  const LIBC_VERSION_MINOR := 12
  const LIBC_VERSION_PATCH := 13

  predicate IsLabelId(id: int) {
    id in {NAMESPACE_LABEL, POD_LABEL, POD_ANNOTATION, CONTAINER_LABEL, PROCESS_ENVAR}
  }

  predicate IsListId(id: int) {
    id == PROCESS_ARGV
  }

  predicate IsConstantId(id: int) {
    id == ALWAYS_TRUE || id == ALWAYS_FALSE || id == ALWAYS_ABSTAIN
  }

  // ----- 64-bit facts and their "not set" values

  const NUM_NOT_SET: int := 0x7FFF_FFFF_FFFF_FFFF
  const UNUM_NOT_SET: int := 0xFFFF_FFFF_FFFF_FFFF

  type Int64 = x: int | -0x8000_0000_0000_0000 <= x <= 0x7FFF_FFFF_FFFF_FFFF
  type UInt64 = x: int | 0 <= x <= 0xFFFF_FFFF_FFFF_FFFF
}
