/** The project configuration record and its enumerations, as declared in
    `types.ts`, and the builder's initial configuration. */
module AppTypes {

  datatype AppPlatform = Ios | Android | BothPlatforms

  datatype NavStyle = TabBar | SideMenu | BottomNav

  datatype Orientation = Portrait | Landscape | BothOrientations

  /** The seven feature switches of a project. */
  datatype Features = Features(
    pushNotifications: bool,
    offlineMode: bool,
    admob: bool,
    socialSharing: bool,
    cameraAccess: bool,
    micAccess: bool,
    locationAccess: bool
  )

  datatype AppConfig = AppConfig(
    url: string,
    name: string,
    description: string,
    icon: string,
    splashScreen: string,
    primaryColor: string,
    secondaryColor: string,
    accentColor: string,
    navStyle: NavStyle,
    platform: AppPlatform,
    orientation: Orientation,
    userAgent: string,
    features: Features
  )

  /** The configuration a fresh builder starts from: no URL and no name, so a
      build cannot be started until the user supplies both. */
  const InitialConfig: AppConfig := AppConfig(
    url := "",
    name := "",
    description := "Native WebView Application",
    icon := "https://cdn-icons-png.flaticon.com/512/1006/1006771.png",
    splashScreen := "",
    primaryColor := "#2563eb",
    secondaryColor := "#3b82f6",
    accentColor := "#60a5fa",
    navStyle := BottomNav,
    platform := Android,
    orientation := Portrait,
    userAgent := "Mozilla/5.0 (Linux; Android 13; AppCoPro Engine) AppleWebKit/537.36 (KHTML, like Gecko) Chrome/120.0.0.0 Mobile Safari/537.36",
    features := Features(
      pushNotifications := true,
      offlineMode := true,
      admob := false,
      socialSharing := true,
      cameraAccess := true,
      micAccess := true,
      locationAccess := true
    )
  )
}
