/** Types and constants shared by all components of the simulator. */
module Common {

  const PAGE_SIZE: nat := 4096

  /** 2^64: addresses and registers are 64-bit words. */
  const TWO64: nat := 0x1_0000_0000_0000_0000

  datatype Option<+T> = None | Some(value: T)

  type Byte = x: int | 0 <= x < 256

  /** Simulation status codes.  ABORT is not a code of the simulator: it stands for every way
      the process itself is lost (a failed SIM_ASSERT, a call through a null dispatch entry, a
      null host pointer, an undefined shift). */
  datatype SimStatus =
    | OK
    | CSR_NOT_SUPPORTED
    | PHYS_MEM_PAGE_ALIGN_ERROR
    | PHYS_MEM_ACCESS_FAULT
    | MMU64_PAGE_FAULT
    | MAPPER_ALREADY_MAPPED
    | MAPPER_TABLE_REGION_END
    | MAPPER_TABLE_REGION_PAGE_MAPPED
    | SIM_EXIT
    | SIM_NOT_IMPLEMENTED_INSTR
    | SIM_PC_ALIGN_ERROR
    | SIM_UNALIGNED_LOAD
    | SIM_UNALIGNED_STORE
    | ABORT
}
