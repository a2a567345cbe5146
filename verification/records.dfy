/** The records of the company-management data: the tables the migration
    scripts emit and the engine reads. Field names follow the JSON keys. */
module Records {
  import opened Base

  /** The `TrangThai` text of an operating company. */
  const ACTIVE: string := "Đang hoạt động"

  /** One row of Company.json. `vonDieuLe` is None where the JSON holds null
      (a charter capital that did not parse); dates are ISO `YYYY-MM-DD` text. */
  datatype Company = Company(
    id: int,
    parentId: int,
    name: string,
    code: string,
    mst: string,
    loaiHinh: string,
    vonDieuLe: Option<int>,
    tinhTrangNiemYet: string,
    repInside: string,
    repOutside: string,
    ngayThanhLap: Option<string>,
    dkkd: Option<string>,
    trangThai: string,
    nganhNghe: string)

  predicate IsActive(c: Company) {
    c.trangThai == ACTIVE
  }

  /** One row of ShareHolders.json as keyed by company code: `code` is the owned
      company, `personaOrg` the holder (a person, or a company's name or code). */
  datatype Shareholder = Shareholder(
    id: int,
    code: string,
    personaOrg: string,
    mstCccdHc: string,
    loaiCd: string,
    ownership: real,
    from: Option<string>,
    to: Option<string>,
    trangThai: string)

  /** The older ShareHolders.json layout, keyed by company ID and name. */
  datatype LinkedShareholder = LinkedShareholder(
    id: int,
    personaOrg: string,
    ownership: real,
    companyId: int,
    companyName: string,
    from: Option<string>,
    to: Option<string>)

  /** One row of CompanyMembers.json: an officer of the company with code `code`. */
  datatype Member = Member(id: int, code: string, name: string, chucVu: string, cccd: string)

  /** One row of lsdkkd.json: a business-registration amendment. */
  datatype RegistrationRecord = RegistrationRecord(
    id: int,
    code: string,
    lan: int,
    thoiGian: Option<string>,
    thoiGianDisplay: string,
    chiTiet: string,
    loai: string)

  /** One row of DDKD.json: a branch or business location. */
  datatype LocationRecord = LocationRecord(
    id: int,
    code: string,
    donViChuQuan: string,
    tenDdkd: string,
    maSoDangKy: string,
    diaChi: string,
    nguoiDungDau: string,
    viTri: string,
    loai: string,
    tinhTrang: string)

  /** The immutable snapshot every computation of the engine reads. */
  datatype Store = Store(companies: seq<Company>, shareholders: seq<Shareholder>, members: seq<Member>)
}
