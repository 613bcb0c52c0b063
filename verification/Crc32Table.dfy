/** The lookup table of hashmap_crc32_helper, and the check of its 256 words against the polynomial. */
module Crc32Table {

  /** One step of division by the polynomial 0x11EDC6F41, on a register whose lowest bit is the highest power. */
  function Shift1(c: bv32): bv32 {
    if c & 1 == 1 then (c >> 1) ^ 0x82F63B78 else c >> 1
  }

  function Shift8(c: bv32): bv32 {
    Shift1(Shift1(Shift1(Shift1(Shift1(Shift1(Shift1(Shift1(c))))))))
  }

  /** crc32_tab[i], in sixteen rows of sixteen words. */
  function Crc32Tab(i: bv8): bv32 {
    if i < 0x10 then Row0(i)
    else if i < 0x20 then Row1(i)
    else if i < 0x30 then Row2(i)
    else if i < 0x40 then Row3(i)
    else if i < 0x50 then Row4(i)
    else if i < 0x60 then Row5(i)
    else if i < 0x70 then Row6(i)
    else if i < 0x80 then Row7(i)
    else if i < 0x90 then Row8(i)
    else if i < 0xA0 then Row9(i)
    else if i < 0xB0 then RowA(i)
    else if i < 0xC0 then RowB(i)
    else if i < 0xD0 then RowC(i)
    else if i < 0xE0 then RowD(i)
    else if i < 0xF0 then RowE(i)
    else RowF(i)
  }

  function Row0(i: bv8): bv32 {
    match i
    case 0x00 => 0x00000000 case 0x01 => 0xF26B8303 case 0x02 => 0xE13B70F7 case 0x03 => 0x1350F3F4
    case 0x04 => 0xC79A971F case 0x05 => 0x35F1141C case 0x06 => 0x26A1E7E8 case 0x07 => 0xD4CA64EB
    case 0x08 => 0x8AD958CF case 0x09 => 0x78B2DBCC case 0x0A => 0x6BE22838 case 0x0B => 0x9989AB3B
    case 0x0C => 0x4D43CFD0 case 0x0D => 0xBF284CD3 case 0x0E => 0xAC78BF27 case _ => 0x5E133C24
  }

  function Row1(i: bv8): bv32 {
    match i
    case 0x10 => 0x105EC76F case 0x11 => 0xE235446C case 0x12 => 0xF165B798 case 0x13 => 0x030E349B
    case 0x14 => 0xD7C45070 case 0x15 => 0x25AFD373 case 0x16 => 0x36FF2087 case 0x17 => 0xC494A384
    case 0x18 => 0x9A879FA0 case 0x19 => 0x68EC1CA3 case 0x1A => 0x7BBCEF57 case 0x1B => 0x89D76C54
    case 0x1C => 0x5D1D08BF case 0x1D => 0xAF768BBC case 0x1E => 0xBC267848 case _ => 0x4E4DFB4B
  }

  function Row2(i: bv8): bv32 {
    match i
    case 0x20 => 0x20BD8EDE case 0x21 => 0xD2D60DDD case 0x22 => 0xC186FE29 case 0x23 => 0x33ED7D2A
    case 0x24 => 0xE72719C1 case 0x25 => 0x154C9AC2 case 0x26 => 0x061C6936 case 0x27 => 0xF477EA35
    case 0x28 => 0xAA64D611 case 0x29 => 0x580F5512 case 0x2A => 0x4B5FA6E6 case 0x2B => 0xB93425E5
    case 0x2C => 0x6DFE410E case 0x2D => 0x9F95C20D case 0x2E => 0x8CC531F9 case _ => 0x7EAEB2FA
  }

  function Row3(i: bv8): bv32 {
    match i
    case 0x30 => 0x30E349B1 case 0x31 => 0xC288CAB2 case 0x32 => 0xD1D83946 case 0x33 => 0x23B3BA45
    case 0x34 => 0xF779DEAE case 0x35 => 0x05125DAD case 0x36 => 0x1642AE59 case 0x37 => 0xE4292D5A
    case 0x38 => 0xBA3A117E case 0x39 => 0x4851927D case 0x3A => 0x5B016189 case 0x3B => 0xA96AE28A
    case 0x3C => 0x7DA08661 case 0x3D => 0x8FCB0562 case 0x3E => 0x9C9BF696 case _ => 0x6EF07595
  }

  function Row4(i: bv8): bv32 {
    match i
    case 0x40 => 0x417B1DBC case 0x41 => 0xB3109EBF case 0x42 => 0xA0406D4B case 0x43 => 0x522BEE48
    case 0x44 => 0x86E18AA3 case 0x45 => 0x748A09A0 case 0x46 => 0x67DAFA54 case 0x47 => 0x95B17957
    case 0x48 => 0xCBA24573 case 0x49 => 0x39C9C670 case 0x4A => 0x2A993584 case 0x4B => 0xD8F2B687
    case 0x4C => 0x0C38D26C case 0x4D => 0xFE53516F case 0x4E => 0xED03A29B case _ => 0x1F682198
  }

  function Row5(i: bv8): bv32 {
    match i
    case 0x50 => 0x5125DAD3 case 0x51 => 0xA34E59D0 case 0x52 => 0xB01EAA24 case 0x53 => 0x42752927
    case 0x54 => 0x96BF4DCC case 0x55 => 0x64D4CECF case 0x56 => 0x77843D3B case 0x57 => 0x85EFBE38
    case 0x58 => 0xDBFC821C case 0x59 => 0x2997011F case 0x5A => 0x3AC7F2EB case 0x5B => 0xC8AC71E8
    case 0x5C => 0x1C661503 case 0x5D => 0xEE0D9600 case 0x5E => 0xFD5D65F4 case _ => 0x0F36E6F7
  }

  function Row6(i: bv8): bv32 {
    match i
    case 0x60 => 0x61C69362 case 0x61 => 0x93AD1061 case 0x62 => 0x80FDE395 case 0x63 => 0x72966096
    case 0x64 => 0xA65C047D case 0x65 => 0x5437877E case 0x66 => 0x4767748A case 0x67 => 0xB50CF789
    case 0x68 => 0xEB1FCBAD case 0x69 => 0x197448AE case 0x6A => 0x0A24BB5A case 0x6B => 0xF84F3859
    case 0x6C => 0x2C855CB2 case 0x6D => 0xDEEEDFB1 case 0x6E => 0xCDBE2C45 case _ => 0x3FD5AF46
  }

  function Row7(i: bv8): bv32 {
    match i
    case 0x70 => 0x7198540D case 0x71 => 0x83F3D70E case 0x72 => 0x90A324FA case 0x73 => 0x62C8A7F9
    case 0x74 => 0xB602C312 case 0x75 => 0x44694011 case 0x76 => 0x5739B3E5 case 0x77 => 0xA55230E6
    case 0x78 => 0xFB410CC2 case 0x79 => 0x092A8FC1 case 0x7A => 0x1A7A7C35 case 0x7B => 0xE811FF36
    case 0x7C => 0x3CDB9BDD case 0x7D => 0xCEB018DE case 0x7E => 0xDDE0EB2A case _ => 0x2F8B6829
  }

  function Row8(i: bv8): bv32 {
    match i
    case 0x80 => 0x82F63B78 case 0x81 => 0x709DB87B case 0x82 => 0x63CD4B8F case 0x83 => 0x91A6C88C
    case 0x84 => 0x456CAC67 case 0x85 => 0xB7072F64 case 0x86 => 0xA457DC90 case 0x87 => 0x563C5F93
    case 0x88 => 0x082F63B7 case 0x89 => 0xFA44E0B4 case 0x8A => 0xE9141340 case 0x8B => 0x1B7F9043
    case 0x8C => 0xCFB5F4A8 case 0x8D => 0x3DDE77AB case 0x8E => 0x2E8E845F case _ => 0xDCE5075C
  }

  function Row9(i: bv8): bv32 {
    match i
    case 0x90 => 0x92A8FC17 case 0x91 => 0x60C37F14 case 0x92 => 0x73938CE0 case 0x93 => 0x81F80FE3
    case 0x94 => 0x55326B08 case 0x95 => 0xA759E80B case 0x96 => 0xB4091BFF case 0x97 => 0x466298FC
    case 0x98 => 0x1871A4D8 case 0x99 => 0xEA1A27DB case 0x9A => 0xF94AD42F case 0x9B => 0x0B21572C
    case 0x9C => 0xDFEB33C7 case 0x9D => 0x2D80B0C4 case 0x9E => 0x3ED04330 case _ => 0xCCBBC033
  }

  function RowA(i: bv8): bv32 {
    match i
    case 0xA0 => 0xA24BB5A6 case 0xA1 => 0x502036A5 case 0xA2 => 0x4370C551 case 0xA3 => 0xB11B4652
    case 0xA4 => 0x65D122B9 case 0xA5 => 0x97BAA1BA case 0xA6 => 0x84EA524E case 0xA7 => 0x7681D14D
    case 0xA8 => 0x2892ED69 case 0xA9 => 0xDAF96E6A case 0xAA => 0xC9A99D9E case 0xAB => 0x3BC21E9D
    case 0xAC => 0xEF087A76 case 0xAD => 0x1D63F975 case 0xAE => 0x0E330A81 case _ => 0xFC588982
  }

  function RowB(i: bv8): bv32 {
    match i
    case 0xB0 => 0xB21572C9 case 0xB1 => 0x407EF1CA case 0xB2 => 0x532E023E case 0xB3 => 0xA145813D
    case 0xB4 => 0x758FE5D6 case 0xB5 => 0x87E466D5 case 0xB6 => 0x94B49521 case 0xB7 => 0x66DF1622
    case 0xB8 => 0x38CC2A06 case 0xB9 => 0xCAA7A905 case 0xBA => 0xD9F75AF1 case 0xBB => 0x2B9CD9F2
    case 0xBC => 0xFF56BD19 case 0xBD => 0x0D3D3E1A case 0xBE => 0x1E6DCDEE case _ => 0xEC064EED
  }

  function RowC(i: bv8): bv32 {
    match i
    case 0xC0 => 0xC38D26C4 case 0xC1 => 0x31E6A5C7 case 0xC2 => 0x22B65633 case 0xC3 => 0xD0DDD530
    case 0xC4 => 0x0417B1DB case 0xC5 => 0xF67C32D8 case 0xC6 => 0xE52CC12C case 0xC7 => 0x1747422F
    case 0xC8 => 0x49547E0B case 0xC9 => 0xBB3FFD08 case 0xCA => 0xA86F0EFC case 0xCB => 0x5A048DFF
    case 0xCC => 0x8ECEE914 case 0xCD => 0x7CA56A17 case 0xCE => 0x6FF599E3 case _ => 0x9D9E1AE0
  }

  function RowD(i: bv8): bv32 {
    match i
    case 0xD0 => 0xD3D3E1AB case 0xD1 => 0x21B862A8 case 0xD2 => 0x32E8915C case 0xD3 => 0xC083125F
    case 0xD4 => 0x144976B4 case 0xD5 => 0xE622F5B7 case 0xD6 => 0xF5720643 case 0xD7 => 0x07198540
    case 0xD8 => 0x590AB964 case 0xD9 => 0xAB613A67 case 0xDA => 0xB831C993 case 0xDB => 0x4A5A4A90
    case 0xDC => 0x9E902E7B case 0xDD => 0x6CFBAD78 case 0xDE => 0x7FAB5E8C case _ => 0x8DC0DD8F
  }

  function RowE(i: bv8): bv32 {
    match i
    case 0xE0 => 0xE330A81A case 0xE1 => 0x115B2B19 case 0xE2 => 0x020BD8ED case 0xE3 => 0xF0605BEE
    case 0xE4 => 0x24AA3F05 case 0xE5 => 0xD6C1BC06 case 0xE6 => 0xC5914FF2 case 0xE7 => 0x37FACCF1
    case 0xE8 => 0x69E9F0D5 case 0xE9 => 0x9B8273D6 case 0xEA => 0x88D28022 case 0xEB => 0x7AB90321
    case 0xEC => 0xAE7367CA case 0xED => 0x5C18E4C9 case 0xEE => 0x4F48173D case _ => 0xBD23943E
  }

  function RowF(i: bv8): bv32 {
    match i
    case 0xF0 => 0xF36E6F75 case 0xF1 => 0x0105EC76 case 0xF2 => 0x12551F82 case 0xF3 => 0xE03E9C81
    case 0xF4 => 0x34F4F86A case 0xF5 => 0xC69F7B69 case 0xF6 => 0xD5CF889D case 0xF7 => 0x27A40B9E
    case 0xF8 => 0x79B737BA case 0xF9 => 0x8BDCB4B9 case 0xFA => 0x988C474D case 0xFB => 0x6AE7C44E
    case 0xFC => 0xBE2DA0A5 case 0xFD => 0x4C4623A6 case 0xFE => 0x5F16D052 case _ => 0xAD7D5351
  }

  /** Every word of the table is eight division steps of its index. */
  lemma TableIsDivision(i: bv8)
    ensures Crc32Tab(i) == Shift8(i as bv32)
  {
    if i < 0x10 { CheckRow0(i); }
    else if i < 0x20 { CheckRow1(i); }
    else if i < 0x30 { CheckRow2(i); }
    else if i < 0x40 { CheckRow3(i); }
    else if i < 0x50 { CheckRow4(i); }
    else if i < 0x60 { CheckRow5(i); }
    else if i < 0x70 { CheckRow6(i); }
    else if i < 0x80 { CheckRow7(i); }
    else if i < 0x90 { CheckRow8(i); }
    else if i < 0xA0 { CheckRow9(i); }
    else if i < 0xB0 { CheckRowA(i); }
    else if i < 0xC0 { CheckRowB(i); }
    else if i < 0xD0 { CheckRowC(i); }
    else if i < 0xE0 { CheckRowD(i); }
    else if i < 0xF0 { CheckRowE(i); }
    else { CheckRowF(i); }
  }

  lemma CheckRow0(i: bv8)
    requires i < 0x10
    ensures Row0(i) == Shift8(i as bv32)
  {
    match i
    case 0x00 | 0x01 | 0x02 | 0x03 | 0x04 | 0x05 | 0x06 | 0x07 | 0x08 | 0x09 | 0x0A | 0x0B | 0x0C | 0x0D | 0x0E =>
    case _ =>
  }

  lemma CheckRow1(i: bv8)
    requires 0x10 <= i < 0x20
    ensures Row1(i) == Shift8(i as bv32)
  {
    match i
    case 0x10 | 0x11 | 0x12 | 0x13 | 0x14 | 0x15 | 0x16 | 0x17 | 0x18 | 0x19 | 0x1A | 0x1B | 0x1C | 0x1D | 0x1E =>
    case _ =>
  }

  lemma CheckRow2(i: bv8)
    requires 0x20 <= i < 0x30
    ensures Row2(i) == Shift8(i as bv32)
  {
    match i
    case 0x20 | 0x21 | 0x22 | 0x23 | 0x24 | 0x25 | 0x26 | 0x27 | 0x28 | 0x29 | 0x2A | 0x2B | 0x2C | 0x2D | 0x2E =>
    case _ =>
  }

  lemma CheckRow3(i: bv8)
    requires 0x30 <= i < 0x40
    ensures Row3(i) == Shift8(i as bv32)
  {
    match i
    case 0x30 | 0x31 | 0x32 | 0x33 | 0x34 | 0x35 | 0x36 | 0x37 | 0x38 | 0x39 | 0x3A | 0x3B | 0x3C | 0x3D | 0x3E =>
    case _ =>
  }

  lemma CheckRow4(i: bv8)
    requires 0x40 <= i < 0x50
    ensures Row4(i) == Shift8(i as bv32)
  {
    match i
    case 0x40 | 0x41 | 0x42 | 0x43 | 0x44 | 0x45 | 0x46 | 0x47 | 0x48 | 0x49 | 0x4A | 0x4B | 0x4C | 0x4D | 0x4E =>
    case _ =>
  }

  lemma CheckRow5(i: bv8)
    requires 0x50 <= i < 0x60
    ensures Row5(i) == Shift8(i as bv32)
  {
    match i
    case 0x50 | 0x51 | 0x52 | 0x53 | 0x54 | 0x55 | 0x56 | 0x57 | 0x58 | 0x59 | 0x5A | 0x5B | 0x5C | 0x5D | 0x5E =>
    case _ =>
  }

  lemma CheckRow6(i: bv8)
    requires 0x60 <= i < 0x70
    ensures Row6(i) == Shift8(i as bv32)
  {
    match i
    case 0x60 | 0x61 | 0x62 | 0x63 | 0x64 | 0x65 | 0x66 | 0x67 | 0x68 | 0x69 | 0x6A | 0x6B | 0x6C | 0x6D | 0x6E =>
    case _ =>
  }

  lemma CheckRow7(i: bv8)
    requires 0x70 <= i < 0x80
    ensures Row7(i) == Shift8(i as bv32)
  {
    match i
    case 0x70 | 0x71 | 0x72 | 0x73 | 0x74 | 0x75 | 0x76 | 0x77 | 0x78 | 0x79 | 0x7A | 0x7B | 0x7C | 0x7D | 0x7E =>
    case _ =>
  }

  lemma CheckRow8(i: bv8)
    requires 0x80 <= i < 0x90
    ensures Row8(i) == Shift8(i as bv32)
  {
    match i
    case 0x80 | 0x81 | 0x82 | 0x83 | 0x84 | 0x85 | 0x86 | 0x87 | 0x88 | 0x89 | 0x8A | 0x8B | 0x8C | 0x8D | 0x8E =>
    case _ =>
  }

  lemma CheckRow9(i: bv8)
    requires 0x90 <= i < 0xA0
    ensures Row9(i) == Shift8(i as bv32)
  {
    match i
    case 0x90 | 0x91 | 0x92 | 0x93 | 0x94 | 0x95 | 0x96 | 0x97 | 0x98 | 0x99 | 0x9A | 0x9B | 0x9C | 0x9D | 0x9E =>
    case _ =>
  }

  lemma CheckRowA(i: bv8)
    requires 0xA0 <= i < 0xB0
    ensures RowA(i) == Shift8(i as bv32)
  {
    match i
    case 0xA0 | 0xA1 | 0xA2 | 0xA3 | 0xA4 | 0xA5 | 0xA6 | 0xA7 | 0xA8 | 0xA9 | 0xAA | 0xAB | 0xAC | 0xAD | 0xAE =>
    case _ =>
  }

  lemma CheckRowB(i: bv8)
    requires 0xB0 <= i < 0xC0
    ensures RowB(i) == Shift8(i as bv32)
  {
    match i
    case 0xB0 | 0xB1 | 0xB2 | 0xB3 | 0xB4 | 0xB5 | 0xB6 | 0xB7 | 0xB8 | 0xB9 | 0xBA | 0xBB | 0xBC | 0xBD | 0xBE =>
    case _ =>
  }

  lemma CheckRowC(i: bv8)
    requires 0xC0 <= i < 0xD0
    ensures RowC(i) == Shift8(i as bv32)
  {
    match i
    case 0xC0 | 0xC1 | 0xC2 | 0xC3 | 0xC4 | 0xC5 | 0xC6 | 0xC7 | 0xC8 | 0xC9 | 0xCA | 0xCB | 0xCC | 0xCD | 0xCE =>
    case _ =>
  }

  lemma CheckRowD(i: bv8)
    requires 0xD0 <= i < 0xE0
    ensures RowD(i) == Shift8(i as bv32)
  {
    match i
    case 0xD0 | 0xD1 | 0xD2 | 0xD3 | 0xD4 | 0xD5 | 0xD6 | 0xD7 | 0xD8 | 0xD9 | 0xDA | 0xDB | 0xDC | 0xDD | 0xDE =>
    case _ =>
  }

  lemma CheckRowE(i: bv8)
    requires 0xE0 <= i < 0xF0
    ensures RowE(i) == Shift8(i as bv32)
  {
    match i
    case 0xE0 | 0xE1 | 0xE2 | 0xE3 | 0xE4 | 0xE5 | 0xE6 | 0xE7 | 0xE8 | 0xE9 | 0xEA | 0xEB | 0xEC | 0xED | 0xEE =>
    case _ =>
  }

  lemma CheckRowF(i: bv8)
    requires 0xF0 <= i
    ensures RowF(i) == Shift8(i as bv32)
  {
    match i
    case 0xF0 | 0xF1 | 0xF2 | 0xF3 | 0xF4 | 0xF5 | 0xF6 | 0xF7 | 0xF8 | 0xF9 | 0xFA | 0xFB | 0xFC | 0xFD | 0xFE =>
    case _ =>
  }
}
