/** The PackageKit enumerations the APT backend reports through. */
module PkEnums {

  /** `PK_INFO_ENUM_*`: the state attached to a package event. */
  datatype Info = Available | Installed | Updating | Installing | Downloading
                | Blocked | Normal | Security | Cleanup

  /** `PK_ERROR_ENUM_*`: the error codes this backend raises. */
  datatype ErrorCode = PackageIdInvalid | PackageNotFound | GroupNotFound
                     | TransactionCancelled | GpgFailure | NoLicenseAgreement | NoNetwork

  /** `PK_STATUS_ENUM_*`: the status the backend shows while it works. */
  datatype Status = Unknown | Query | Install | RefreshCache | Download | Update | Request

  /** `PK_FILTER_ENUM_*`: filters a query may carry. */
  datatype Filter = Installed | NotInstalled | Gui | NotGui | Development | NotDevelopment
                  | Free | NotFree | Collections | NotCollections

  /** `PK_GROUP_ENUM_*`: the groups this backend advertises, some it does
      not, and the unknown group. */
  datatype Group = Accessories | AdminTools | Communication | Documentation
                 | DesktopGnome | DesktopKde | DesktopOther | Electronics | Games
                 | Graphics | Internet | Legacy | Localization | Multimedia | Network
                 | Other | Programming | Publishing | Science | System | Collections
                 | Education | Fonts | Repos | Servers | Virtualization
                 | UnknownGroup

  /** `PK_SIGTYPE_ENUM_*`. */
  datatype SigType = Gpg | UnknownSigType
}
