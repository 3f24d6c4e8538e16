/** Instruction names: the enumeration of the source, by its own 8-bit codes. Related instructions stand
    together in it, so the groups of instructions below are ranges of names. */
module Names {
  newtype IName = x: int | 0 <= x < 127

  const LB: IName := 0
  const LH: IName := 1
  const LW: IName := 2
  const LBU: IName := 3
  const LHU: IName := 4
  const LD: IName := 5
  const LWU: IName := 6
  const ADDI: IName := 7
  const ADDW: IName := 8
  const ADDIW: IName := 9
  const SLTI: IName := 10
  const SLTIU: IName := 11
  const XORI: IName := 12
  const ORI: IName := 13
  const ANDI: IName := 14
  const SLLI: IName := 15
  const SRLI: IName := 16
  const SRAI: IName := 17
  const SLLIW: IName := 18
  const SRLIW: IName := 19
  const SRAIW: IName := 20
  const FENCE: IName := 21
  const FENCEI: IName := 22
  const ECALL: IName := 23
  const EBREAK: IName := 24
  const CSRRW: IName := 25
  const CSRRS: IName := 26
  const CSRRC: IName := 27
  const CSRRWI: IName := 28
  const CSRRSI: IName := 29
  const CSRRCI: IName := 30
  const BEQ: IName := 31
  const BNE: IName := 32
  const BLT: IName := 33
  const BGE: IName := 34
  const BLTU: IName := 35
  const BGEU: IName := 36
  const SB: IName := 37
  const SH: IName := 38
  const SW: IName := 39
  const SD: IName := 40
  const ADD: IName := 41
  const SUB: IName := 42
  const SUBW: IName := 43
  const SLL: IName := 44
  const SLLW: IName := 45
  const SLT: IName := 46
  const SLTU: IName := 47
  const XOR: IName := 48
  const SRL: IName := 49
  const SRLW: IName := 50
  const SRA: IName := 51
  const SRAW: IName := 52
  const OR: IName := 53
  const AND: IName := 54
  const JAL: IName := 55
  const JALR: IName := 56
  const LUI: IName := 57
  const AUIPC: IName := 58
  const MUL: IName := 59
  const MULH: IName := 60
  const MULHSU: IName := 61
  const MULHU: IName := 62
  const DIV: IName := 63
  const DIVU: IName := 64
  const REM: IName := 65
  const REMU: IName := 66
  const MULW: IName := 67
  const DIVW: IName := 68
  const DIVUW: IName := 69
  const REMW: IName := 70
  const REMUW: IName := 71
  const LRW: IName := 72
  const SCW: IName := 73
  const AMOSWAPW: IName := 74
  const AMOADDW: IName := 75
  const AMOXORW: IName := 76
  const AMOANDW: IName := 77
  const AMOORW: IName := 78
  const AMOMINW: IName := 79
  const AMOMAXW: IName := 80
  const AMOMINUW: IName := 81
  const AMOMAXUW: IName := 82
  const LRD: IName := 83
  const SCD: IName := 84
  const AMOSWAPD: IName := 85
  const AMOADDD: IName := 86
  const AMOXORD: IName := 87
  const AMOANDD: IName := 88
  const AMOORD: IName := 89
  const AMOMIND: IName := 90
  const AMOMAXD: IName := 91
  const AMOMINUD: IName := 92
  const AMOMAXUD: IName := 93
  const SRET: IName := 94
  const MRET: IName := 95
  const FLW: IName := 96
  const FSW: IName := 97
  const FMADDS: IName := 98
  const FMSUBS: IName := 99
  const FNMSUBS: IName := 100
  const FNMADDS: IName := 101
  const FADDS: IName := 102
  const FSUBS: IName := 103
  const FMULS: IName := 104
  const FDIVS: IName := 105
  const FSQRTS: IName := 106
  const FSGNJS: IName := 107
  const FSGNJNS: IName := 108
  const FSGNJXS: IName := 109
  const FMINS: IName := 110
  const FMAXS: IName := 111
  const FCVTWS: IName := 112
  const FCVTWUS: IName := 113
  const FMVXW: IName := 114
  const FEQS: IName := 115
  const FLTS: IName := 116
  const FLES: IName := 117
  const FCLASSS: IName := 118
  const FCVTSW: IName := 119
  const FCVTSWU: IName := 120
  const FMVWX: IName := 121
  const FCVTLS: IName := 122
  const FCVTLUS: IName := 123
  const FCVTSL: IName := 124
  const FCVTSLU: IName := 125
  const XXX: IName := 126
}
